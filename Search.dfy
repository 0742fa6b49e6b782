/**
 * The lookups behind contains: the ordered descent contains(element, curPos),
 * the left-spine scan badTreeContains, and contains(element) itself, which
 * picks one of them by asking the validator.
 */
module Search {
  import opened BinaryTrees
  import opened Validation

  function Prepend(d: Dir, o: Option<Path>): Option<Path>
  {
    match o
    case None => None
    case Some(p) => Some([d] + p)
  }

  /**
   * contains(element, curPos) on the subtree rooted at curPos: stop on an
   * equal node, go left when x is smaller, right otherwise, and give up at a
   * missing child. The result is a path relative to that subtree.
   */
  function OrderedSearch(t: Tree, x: int): (r: Option<Path>)
    requires t.Node?
    ensures r.Some? ==> IsPos(t, r.value) && Label(t, r.value) == x
    decreases t
  {
    if t.value == x then Some([])
    else if x < t.value then
      if t.left.Empty? then None
      else
        var r := OrderedSearch(t.left, x);
        if r.Some? then SubtreeCons(t, L, r.value); Prepend(L, r) else None
    else
      if t.right.Empty? then None
      else
        var r := OrderedSearch(t.right, x);
        if r.Some? then SubtreeCons(t, R, r.value); Prepend(R, r) else None
  }

  /** On a true search tree the ordered descent finds x exactly when x is stored. */
  lemma {:induction false} OrderedSearchOnBst(t: Tree, x: int)
    requires t.Node? && IsBst(t)
    ensures OrderedSearch(t, x).Some? <==> x in Elements(t)
    decreases t
  {
    if t.value != x {
      if x < t.value {
        if t.left.Node? {
          OrderedSearchOnBst(t.left, x);
        }
        assert x !in Elements(t.right);
      } else {
        if t.right.Node? {
          OrderedSearchOnBst(t.right, x);
        }
        assert x !in Elements(t.left);
      }
    }
  }

  /**
   * badTreeContains: the first node of the left spine equal to x, or None
   * when no left-spine node matches.
   */
  function LeftSpineSearch(t: Tree, x: int): (r: Option<Path>)
    ensures r.None? <==> x !in LeftSpine(t)
    ensures r.Some? ==>
      r.value == Lefts(|r.value|) && |r.value| < |LeftSpine(t)| &&
      LeftSpine(t)[|r.value|] == x && x !in LeftSpine(t)[..|r.value|]
    decreases t
  {
    match t
    case Empty => None
    case Node(l, v, _) =>
      if x == v then Some([])
      else
        var r := LeftSpineSearch(l, x);
        assert LeftSpine(t) == [v] + LeftSpine(l);
        if r.Some? then
          assert LeftSpine(t)[..|r.value| + 1] == [v] + LeftSpine(l)[..|r.value|];
          Prepend(L, r)
        else None
  }

  /** The i-th left-spine value sits at the path of i left steps. */
  lemma {:induction false} LeftSpineAt(t: Tree, i: nat)
    requires i < |LeftSpine(t)|
    ensures IsPos(t, Lefts(i)) && Label(t, Lefts(i)) == LeftSpine(t)[i]
    decreases t
  {
    if i > 0 {
      LeftSpineAt(t.left, i - 1);
      SubtreeCons(t, L, Lefts(i - 1));
    }
  }

  /**
   * contains(element): None for an empty tree, the root when it holds x;
   * otherwise the ordered descent if the validator passes and the left-spine
   * scan if it does not.
   */
  function Lookup(t: Tree, x: int): (r: Option<Path>)
    ensures t.Empty? ==> r.None?
    ensures r.Some? ==> IsPos(t, r.value) && Label(t, r.value) == x
  {
    if t.Empty? then None
    else if t.value == x then Some([])
    else if ChainValid(t) then OrderedSearch(t, x)
    else
      var r := LeftSpineSearch(t, x);
      if r.Some? then LeftSpineAt(t, |r.value|); r else r
  }

  /** On a true search tree contains finds x exactly when x is stored. */
  lemma LookupOnBst(t: Tree, x: int)
    requires IsBst(t)
    ensures Lookup(t, x).Some? <==> x in Elements(t)
  {
    if t.Node? {
      BstPassesValidator(t);
      OrderedSearchOnBst(t, x);
    }
  }

  /**
   * Once the validator fails, contains is the left-spine scan: it finds x
   * exactly when x is on the left spine, wherever else x is stored.
   */
  lemma LookupOnInvalid(t: Tree, x: int)
    requires t.Node? && !ChainValid(t)
    ensures Lookup(t, x) == LeftSpineSearch(t, x)
    ensures Lookup(t, x).Some? <==> x in LeftSpine(t)
  {
  }

  /** An example: 15 is stored right of the root, off the left spine, and contains misses it. */
  lemma LookupMissesOffSpine()
    ensures 15 in Elements(Node(Leaf(20), 10, Leaf(15)))
    ensures Lookup(Node(Leaf(20), 10, Leaf(15)), 15) == None
  {
    var t := Node(Leaf(20), 10, Leaf(15));
    assert !ChainValid(t);
    assert LeftSpine(t) == [10, 20];
    LookupOnInvalid(t, 15);
  }
}
