/**
 * The two insertion policies as functions on trees: insert, which walks down
 * by comparison and rejects what contains already finds, and brokenInsert,
 * which always hangs the new value under the last node of the left spine. Also
 * the trees the constructor builds from an element sequence with each policy.
 */
module Insertion {
  import opened BinaryTrees
  import opened Validation
  import opened Search

  // ---------------------------------------------------------------------------
  // insert

  /**
   * The empty slot insert's walk ends on: left on a strictly smaller value,
   * right otherwise.
   */
  function InsertPath(t: Tree, x: int): (p: Path)
    ensures Vacant(t, p)
    decreases t
  {
    match t
    case Empty => []
    case Node(l, v, r) =>
      if x < v then [L] + InsertPath(l, x) else [R] + InsertPath(r, x)
  }

  /** Each step of the walk: it turns left exactly when x is smaller than the node it leaves. */
  lemma {:induction false} InsertPathSteps(t: Tree, x: int, i: nat)
    requires i < |InsertPath(t, x)|
    ensures IsPos(t, InsertPath(t, x)[..i])
    ensures InsertPath(t, x)[i] == L <==> x < Label(t, InsertPath(t, x)[..i])
    decreases t
  {
    var p := InsertPath(t, x);
    if i > 0 {
      var d := p[0];
      InsertPathSteps(Child(t, d), x, i - 1);
      assert p[..i] == [d] + InsertPath(Child(t, d), x)[..i - 1];
      SubtreeCons(t, d, InsertPath(Child(t, d), x)[..i - 1]);
    } else {
      assert p[..0] == [];
    }
  }

  /** One step of insert's walk from a node on the way to the slot. */
  lemma InsertWalkStep(t: Tree, x: int, walk: Path)
    requires IsPos(t, walk) && InsertPath(t, x) == walk + InsertPath(Subtree(t, walk), x)
    ensures var here := Subtree(t, walk); var d := if x < here.value then L else R;
      Subtree(t, walk + [d]) == Child(here, d) &&
      InsertPath(t, x) == walk + [d] + InsertPath(Child(here, d), x)
  {
    var here := Subtree(t, walk);
    var d := if x < here.value then L else R;
    SubtreeStep(t, walk, d);
    var rest := InsertPath(Child(here, d), x);
    assert InsertPath(here, x) == [d] + rest;
    AppendStep(walk, d, rest);
  }

  lemma AppendStep(walk: Path, d: Dir, rest: Path)
    ensures walk + ([d] + rest) == walk + [d] + rest
  {
  }

  /** The tree after a successful insert of x. */
  function OrderedInsert(t: Tree, x: int): Tree
  {
    Graft(t, InsertPath(t, x), Leaf(x))
  }

  /**
   * insert adds exactly one node, a leaf holding x at the end of the walk;
   * every existing node keeps its place and its value.
   */
  lemma OrderedInsertAddsLeaf(t: Tree, x: int)
    ensures !IsPos(t, InsertPath(t, x))
    ensures Subtree(OrderedInsert(t, x), InsertPath(t, x)) == Leaf(x)
    ensures forall q :: IsPos(OrderedInsert(t, x), q) <==> IsPos(t, q) || q == InsertPath(t, x)
    ensures forall q :: IsPos(t, q) ==> Label(OrderedInsert(t, x), q) == Label(t, q)
    ensures Elements(OrderedInsert(t, x)) == Elements(t) + multiset{x}
  {
    AttachLeaf(t, InsertPath(t, x), x);
  }

  /** insert keeps a true search tree a true search tree. */
  lemma {:induction false} OrderedInsertKeepsBst(t: Tree, x: int)
    requires IsBst(t)
    ensures IsBst(OrderedInsert(t, x))
    decreases t
  {
    match t
    case Empty =>
    case Node(l, v, r) =>
      OrderedInsertDescends(t, x);
      if x < v {
        OrderedInsertKeepsBst(l, x);
        InsertStaysBelow(l, x, v);
        BstNode(OrderedInsert(l, x), v, r);
      } else {
        OrderedInsertKeepsBst(r, x);
        InsertStaysAbove(r, x, v);
        BstNode(l, v, OrderedInsert(r, x));
      }
  }

  lemma InsertStaysBelow(t: Tree, x: int, v: int)
    requires x < v && forall y | y in Elements(t) :: y < v
    ensures forall y | y in Elements(OrderedInsert(t, x)) :: y < v
  {
    AttachLeafElements(t, InsertPath(t, x), x);
  }

  lemma InsertStaysAbove(t: Tree, x: int, v: int)
    requires v <= x && forall y | y in Elements(t) :: v <= y
    ensures forall y | y in Elements(OrderedInsert(t, x)) :: v <= y
  {
    AttachLeafElements(t, InsertPath(t, x), x);
  }

  lemma BstNode(l: Tree, v: int, r: Tree)
    requires IsBst(l) && IsBst(r)
    requires forall y | y in Elements(l) :: y < v
    requires forall y | y in Elements(r) :: v <= y
    ensures IsBst(Node(l, v, r))
  {
  }

  /** At a node, insert recurses into the side its walk takes. */
  lemma OrderedInsertDescends(t: Tree, x: int)
    requires t.Node?
    ensures OrderedInsert(t, x) ==
      if x < t.value then Node(OrderedInsert(t.left, x), t.value, t.right)
      else Node(t.left, t.value, OrderedInsert(t.right, x))
  {
    var p := InsertPath(t, x);
    assert p[1..] == InsertPath(Child(t, p[0]), x);
  }

  // ---------------------------------------------------------------------------
  // brokenInsert

  /** The slot under the last left-spine node, where brokenInsert attaches. */
  function LeftmostPath(t: Tree): (p: Path)
    ensures Vacant(t, p)
    ensures p == Lefts(|LeftSpine(t)|)
    decreases t
  {
    match t
    case Empty => []
    case Node(l, _, _) => [L] + LeftmostPath(l)
  }

  /** One step of brokenInsert's walk down the left spine. */
  lemma LeftmostWalkStep(t: Tree, walk: Path)
    requires IsPos(t, walk) && LeftmostPath(t) == walk + LeftmostPath(Subtree(t, walk))
    ensures var here := Subtree(t, walk);
      Subtree(t, walk + [L]) == here.left &&
      LeftmostPath(t) == walk + [L] + LeftmostPath(here.left)
  {
    var here := Subtree(t, walk);
    SubtreeStep(t, walk, L);
    var rest := LeftmostPath(here.left);
    assert LeftmostPath(here) == [L] + rest;
    AppendStep(walk, L, rest);
  }

  /** The tree after brokenInsert of x. */
  function LeftmostInsert(t: Tree, x: int): Tree
  {
    Graft(t, LeftmostPath(t), Leaf(x))
  }

  /**
   * brokenInsert adds exactly one node, a leaf holding x below the last
   * left-spine node, whatever x is; the left spine grows by x and nothing
   * else changes.
   */
  lemma {:induction false} LeftmostInsertExtendsSpine(t: Tree, x: int)
    ensures Subtree(LeftmostInsert(t, x), LeftmostPath(t)) == Leaf(x)
    ensures forall q :: IsPos(LeftmostInsert(t, x), q) <==> IsPos(t, q) || q == LeftmostPath(t)
    ensures forall q :: IsPos(t, q) ==> Label(LeftmostInsert(t, x), q) == Label(t, q)
    ensures LeftSpine(LeftmostInsert(t, x)) == LeftSpine(t) + [x]
    decreases t
  {
    AttachLeaf(t, LeftmostPath(t), x);
    match t
    case Empty =>
    case Node(l, v, r) =>
      LeftmostInsertExtendsSpine(l, x);
      assert LeftmostPath(t)[1..] == LeftmostPath(l);
      assert LeftmostInsert(t, x) == Node(LeftmostInsert(l, x), v, r);
  }

  /**
   * brokenInsert breaks the validator: a value larger than the last left-spine
   * node becomes that node's left child, and the validator's route, which goes
   * left at every spine node, fails there.
   */
  lemma {:induction false} LeftmostInsertBreaksValidator(t: Tree, x: int)
    requires t.Node? && LeftSpine(t)[|LeftSpine(t)| - 1] < x
    ensures !ChainValid(LeftmostInsert(t, x))
    decreases t
  {
    var l, v, r := t.left, t.value, t.right;
    assert LeftSpine(t) == [v] + LeftSpine(l);
    if l.Empty? {
      assert LeftmostPath(t) == [L] && LeftmostPath(t)[1..] == [];
      assert Graft(l, [], Leaf(x)) == Leaf(x);
      assert LeftmostInsert(t, x) == Node(Leaf(x), v, r);
    } else {
      LeftmostInsertBreaksValidator(l, x);
      assert LeftmostPath(t)[1..] == LeftmostPath(l);
      assert LeftmostInsert(t, x) == Node(LeftmostInsert(l, x), v, r);
    }
  }

  // ---------------------------------------------------------------------------
  // The constructor's trees

  /** A left-only chain holding xs in order from the root down. */
  function Chain(xs: seq<int>): Tree
    decreases |xs|
  {
    if xs == [] then Empty else Node(Chain(xs[1..]), xs[0], Empty)
  }

  /** Building with brokenInsert only: each step extends the chain by one value at the bottom. */
  lemma {:induction false} LeftmostInsertChain(xs: seq<int>, x: int)
    ensures LeftmostInsert(Chain(xs), x) == Chain(xs + [x])
    decreases |xs|
  {
    if xs != [] {
      LeftmostInsertChain(xs[1..], x);
      assert (xs + [x])[1..] == xs[1..] + [x];
      assert LeftmostPath(Chain(xs))[1..] == LeftmostPath(Chain(xs[1..]));
    }
  }

  /** The chain holds xs along its left spine and nowhere else. */
  lemma {:induction false} ChainShape(xs: seq<int>)
    ensures LeftSpine(Chain(xs)) == xs
    ensures Elements(Chain(xs)) == multiset(xs)
    ensures Height(Chain(xs)) == |xs|
    decreases |xs|
  {
    if xs != [] {
      ChainShape(xs[1..]);
      assert xs == [xs[0]] + xs[1..];
    }
  }

  predicate NonIncreasing(xs: seq<int>)
  {
    forall i :: 0 < i < |xs| ==> xs[i] <= xs[i - 1]
  }

  /** A brokenInsert-built chain passes the validator exactly when its input never increases. */
  lemma {:induction false} ChainValidIffNonIncreasing(xs: seq<int>)
    requires xs != []
    ensures ChainValid(Chain(xs)) <==> NonIncreasing(xs)
    decreases |xs|
  {
    if |xs| > 1 {
      ChainValidIffNonIncreasing(xs[1..]);
      assert Chain(xs).left == Chain(xs[1..]) && Chain(xs[1..]).value == xs[1];
      if NonIncreasing(xs) {
        assert NonIncreasing(xs[1..]) by {
          forall i | 0 < i < |xs| - 1 ensures xs[1..][i] <= xs[1..][i - 1] {
            assert xs[i + 1] <= xs[i];
          }
        }
      }
      if xs[1] <= xs[0] && NonIncreasing(xs[1..]) {
        forall i | 0 < i < |xs| ensures xs[i] <= xs[i - 1] {
          if i > 1 {
            assert xs[1..][i - 1] <= xs[1..][i - 2];
          }
        }
      }
    }
  }

  predicate Distinct(xs: seq<int>)
  {
    forall i, j :: 0 <= i < j < |xs| ==> xs[i] != xs[j]
  }

  /**
   * The constructor with insert: each element in turn, failing with
   * Duplicate as soon as contains finds the element being inserted.
   */
  function BuildOrdered(xs: seq<int>): Result<Tree>
    decreases |xs|
  {
    if xs == [] then Ok(Empty)
    else match BuildOrdered(xs[..|xs| - 1])
      case Fail(e) => Fail(e)
      case Ok(t) =>
        var x := xs[|xs| - 1];
        if Lookup(t, x).Some? then Fail(Duplicate) else Ok(OrderedInsert(t, x))
  }

  /**
   * Building with insert succeeds exactly when the elements are pairwise
   * distinct, and then gives a true search tree holding exactly them.
   */
  lemma {:induction false} BuildOrderedCorrect(xs: seq<int>)
    ensures BuildOrdered(xs).Ok? <==> Distinct(xs)
    ensures BuildOrdered(xs).Ok? ==>
      IsBst(BuildOrdered(xs).value) && Elements(BuildOrdered(xs).value) == multiset(xs)
    decreases |xs|
  {
    if xs != [] {
      var n := |xs| - 1;
      var front, x := xs[..n], xs[n];
      assert xs == front + [x];
      BuildOrderedCorrect(front);
      assert Distinct(xs) <==> Distinct(front) && x !in front;
      if BuildOrdered(front).Ok? {
        var t := BuildOrdered(front).value;
        LookupOnBst(t, x);
        assert x in Elements(t) <==> x in front;
        if Lookup(t, x).None? {
          OrderedInsertKeepsBst(t, x);
          AttachLeafElements(t, InsertPath(t, x), x);
        }
      }
    }
  }

  /** Once building a prefix fails, building the whole sequence fails: the exception ends the loop. */
  lemma BuildOrderedFailsOnPrefix(xs: seq<int>, i: nat)
    requires i <= |xs| && BuildOrdered(xs[..i]).Fail?
    ensures BuildOrdered(xs).Fail?
  {
    BuildOrderedCorrect(xs[..i]);
    BuildOrderedCorrect(xs);
    var a, b :| 0 <= a < b < i && xs[..i][a] == xs[..i][b];
  }
}
