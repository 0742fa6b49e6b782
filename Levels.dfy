/**
 * getNodesAtHeight: the slots of one level, left to right, with an empty
 * slot (Java null) kept wherever a node is missing. Level 1 is the root's
 * slot; each level lists, for every slot of the level above, its left child
 * slot and then its right child slot.
 */
module Levels {
  import opened BinaryTrees

  /** A level slot: a position, or null. */
  type Slot = Option<Path>

  /** The level-1 list holds the root, or null for an empty tree. */
  function RootSlot(t: Tree): Slot
  {
    if t.Node? then Some([]) else None
  }

  /** Every slot names a node of t (what left and right accept). */
  predicate SlotsOf(t: Tree, slots: seq<Slot>)
  {
    forall i :: 0 <= i < |slots| && slots[i].Some? ==> IsPos(t, slots[i].value)
  }

  /** The left and right child slots of one slot; a null slot yields two nulls. */
  function ChildSlots(t: Tree, s: Slot): seq<Slot>
  {
    match s
    case None => [None, None]
    case Some(p) => if IsPos(t, p) then [ChildOf(t, p, L), ChildOf(t, p, R)] else [None, None]
  }

  /** One pass of the loop in getNodesAtHeight(height, currentHeight, nodeSet). */
  function Expand(t: Tree, slots: seq<Slot>): seq<Slot>
    decreases |slots|
  {
    if slots == [] then []
    else Expand(t, slots[..|slots| - 1]) + ChildSlots(t, slots[|slots| - 1])
  }

  /** n passes, the first applied first, as the recursion does them. */
  function Expanded(t: Tree, slots: seq<Slot>, n: nat): seq<Slot>
    decreases n
  {
    if n == 0 then slots else Expanded(t, Expand(t, slots), n - 1)
  }

  /** The slots at level k, for k >= 1. */
  function Level(t: Tree, k: nat): seq<Slot>
    requires k >= 1
  {
    Expanded(t, [RootSlot(t)], k - 1)
  }

  function Pow2(n: nat): (r: nat)
    ensures r >= 1
  {
    if n == 0 then 1 else 2 * Pow2(n - 1)
  }

  /** The n-step path written by i in binary, most significant step first: 0 is left, 1 is right. */
  function Bits(i: nat, n: nat): (p: Path)
    ensures |p| == n
  {
    if n == 0 then [] else Bits(i / 2, n - 1) + [if i % 2 == 0 then L else R]
  }

  /** The inverse of Bits: the slot number of a path within its level. */
  function Index(p: Path): (i: nat)
    ensures i < Pow2(|p|) && Bits(i, |p|) == p
  {
    if p == [] then 0
    else
      var front := p[..|p| - 1];
      var i := 2 * Index(front) + (if p[|p| - 1] == R then 1 else 0);
      assert p == front + [p[|p| - 1]];
      i
  }

  /** The slot of level n + 1 numbered i: the position Bits(i, n) if it is a node, else null. */
  function SlotAt(t: Tree, n: nat, i: nat): Slot
  {
    if IsPos(t, Bits(i, n)) then Some(Bits(i, n)) else None
  }

  // ---------------------------------------------------------------------------

  /** Expanding doubles the slots: slots 2j and 2j + 1 are the children of slot j. */
  lemma {:induction false} ExpandAt(t: Tree, slots: seq<Slot>, j: nat)
    requires j < |slots|
    ensures |Expand(t, slots)| == 2 * |slots|
    ensures Expand(t, slots)[2 * j] == ChildSlots(t, slots[j])[0]
    ensures Expand(t, slots)[2 * j + 1] == ChildSlots(t, slots[j])[1]
    decreases |slots|
  {
    var front := slots[..|slots| - 1];
    if j < |front| {
      ExpandAt(t, front, j);
      assert front[j] == slots[j];
    } else {
      ExpandLength(t, front);
    }
  }

  lemma {:induction false} ExpandLength(t: Tree, slots: seq<Slot>)
    ensures |Expand(t, slots)| == 2 * |slots|
    decreases |slots|
  {
    if slots != [] {
      ExpandLength(t, slots[..|slots| - 1]);
    }
  }

  lemma {:induction false} ExpandedLast(t: Tree, slots: seq<Slot>, n: nat)
    ensures Expanded(t, slots, n + 1) == Expand(t, Expanded(t, slots, n))
    decreases n
  {
    if n > 0 {
      ExpandedLast(t, Expand(t, slots), n - 1);
    }
  }

  /** Expanding keeps slots naming nodes of t. */
  lemma {:induction false} ExpandSlotsOf(t: Tree, slots: seq<Slot>)
    ensures SlotsOf(t, Expand(t, slots))
    decreases |slots|
  {
    if slots != [] {
      ExpandSlotsOf(t, slots[..|slots| - 1]);
    }
  }

  /**
   * Level k has 2^(k-1) slots, and its slot i holds exactly the position
   * reached by the steps written by i in binary, or null when there is no
   * node there.
   */
  lemma {:induction false} LevelSlots(t: Tree, k: nat)
    requires k >= 1
    ensures |Level(t, k)| == Pow2(k - 1)
    ensures forall i :: 0 <= i < Pow2(k - 1) ==> Level(t, k)[i] == SlotAt(t, k - 1, i)
    decreases k
  {
    if k > 1 {
      LevelSlots(t, k - 1);
      ExpandedLast(t, [RootSlot(t)], k - 2);
      ExpandSlotAt(t, k - 2, Level(t, k - 1));
    }
  }

  /** Expanding the level of depth n gives the level of depth n + 1. */
  lemma ExpandSlotAt(t: Tree, n: nat, above: seq<Slot>)
    requires |above| == Pow2(n)
    requires forall j :: 0 <= j < |above| ==> above[j] == SlotAt(t, n, j)
    ensures |Expand(t, above)| == Pow2(n + 1)
    ensures forall i :: 0 <= i < Pow2(n + 1) ==> Expand(t, above)[i] == SlotAt(t, n + 1, i)
  {
    ExpandLength(t, above);
    forall i | 0 <= i < Pow2(n + 1) ensures Expand(t, above)[i] == SlotAt(t, n + 1, i) {
      var j := i / 2;
      ExpandAt(t, above, j);
      ChildrenOfSlotAt(t, n, j);
      if i % 2 == 0 {
        assert i == 2 * j;
      } else {
        assert i == 2 * j + 1;
      }
    }
  }

  /** The two slots below slot j are slots 2j and 2j + 1 one level down. */
  lemma ChildrenOfSlotAt(t: Tree, n: nat, j: nat)
    ensures ChildSlots(t, SlotAt(t, n, j))[0] == SlotAt(t, n + 1, 2 * j)
    ensures ChildSlots(t, SlotAt(t, n, j))[1] == SlotAt(t, n + 1, 2 * j + 1)
  {
    var p := Bits(j, n);
    assert (2 * j) / 2 == j && (2 * j) % 2 == 0;
    assert (2 * j + 1) / 2 == j && (2 * j + 1) % 2 == 1;
    assert Bits(2 * j, n + 1) == p + [L];
    assert Bits(2 * j + 1, n + 1) == p + [R];
    SubtreeStep(t, p, L);
    SubtreeStep(t, p, R);
  }

  /** Every node appears on the level one below its depth, at the slot its path numbers. */
  lemma LevelHasEveryNode(t: Tree, p: Path)
    requires IsPos(t, p)
    ensures Index(p) < |Level(t, |p| + 1)| && Level(t, |p| + 1)[Index(p)] == Some(p)
  {
    LevelSlots(t, |p| + 1);
  }

  /** A level holds some node exactly when it is no deeper than the height. */
  lemma LevelEmptyBeyondHeight(t: Tree, k: nat)
    requires k >= 1
    ensures k > Height(t) <==> forall i :: 0 <= i < |Level(t, k)| ==> Level(t, k)[i].None?
  {
    LevelSlots(t, k);
    if k > Height(t) {
      forall i | 0 <= i < |Level(t, k)| ensures Level(t, k)[i].None? {
        if IsPos(t, Bits(i, k - 1)) {
          DepthBelowHeight(t, Bits(i, k - 1));
        }
      }
    } else {
      var p := DeepestPosition(t);
      PrefixIsPos(t, p, k - 1);
      LevelHasEveryNode(t, p[..k - 1]);
    }
  }
}
