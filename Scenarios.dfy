/**
 * Worked examples of the specification functions on small inputs: the tree
 * ordered insertion builds, and what one corrupting insertion does to the
 * validator and to contains.
 */
module Scenarios {
  import opened BinaryTrees
  import opened Validation
  import opened Search
  import opened Insertion

  /** Inserting 5, 3, 7, 1, 4 in order gives root 5, then 3 and 7, then 1 and 4: height 3. */
  lemma OrderedBuildOfFive()
    ensures BuildOrdered([5, 3, 7, 1, 4]) == Ok(Node(Node(Leaf(1), 3, Leaf(4)), 5, Leaf(7)))
    ensures Height(BuildOrdered([5, 3, 7, 1, 4]).value) == 3
  {
    var xs := [5, 3, 7, 1, 4];
    assert xs[..0] == [];
    assert xs[..1] == [5] && xs[..1][..0] == [];
    assert xs[..2] == [5, 3] && xs[..2][..1] == [5];
    assert xs[..3] == [5, 3, 7] && xs[..3][..2] == [5, 3];
    assert xs[..4] == [5, 3, 7, 1] && xs[..4][..3] == [5, 3, 7];
    assert xs[..5] == xs && xs[..5][..4] == [5, 3, 7, 1];
    var t1 := Leaf(5);
    var t2 := Node(Leaf(3), 5, Empty);
    var t3 := Node(Leaf(3), 5, Leaf(7));
    var t4 := Node(Node(Leaf(1), 3, Empty), 5, Leaf(7));
    var t5 := Node(Node(Leaf(1), 3, Leaf(4)), 5, Leaf(7));
    assert BuildOrdered([5]) == Ok(t1);
    assert InsertPath(t1, 3) == [L];
    assert BuildOrdered([5, 3]) == Ok(t2);
    assert InsertPath(t2, 7) == [R];
    assert BuildOrdered([5, 3, 7]) == Ok(t3);
    assert InsertPath(t3, 1) == [L, L];
    assert BuildOrdered([5, 3, 7, 1]) == Ok(t4);
    assert InsertPath(t4, 4) == [L, R];
    assert BuildOrdered(xs) == Ok(t5);
  }

  /**
   * Ordered insertion of 10, 5, 15 passes the validator and contains finds 5
   * but not 20; a corrupting insertion of 20 then hangs it left of 5, and the
   * validator fails because 5 is smaller than its new left child.
   */
  lemma CorruptingInsertion()
    ensures BuildOrdered([10, 5, 15]) == Ok(Node(Leaf(5), 10, Leaf(15)))
    ensures ChainValid(Node(Leaf(5), 10, Leaf(15)))
    ensures Lookup(Node(Leaf(5), 10, Leaf(15)), 5) == Some([L])
    ensures Lookup(Node(Leaf(5), 10, Leaf(15)), 20) == None
    ensures LeftmostInsert(Node(Leaf(5), 10, Leaf(15)), 20) == Node(Node(Leaf(20), 5, Empty), 10, Leaf(15))
    ensures !ChainValid(Node(Node(Leaf(20), 5, Empty), 10, Leaf(15)))
  {
    var xs := [10, 5, 15];
    assert xs[..1] == [10] && xs[..1][..0] == [];
    assert xs[..2] == [10, 5] && xs[..2][..1] == [10];
    assert xs[..3] == xs && xs[..3][..2] == [10, 5];
    var t1 := Leaf(10);
    var t2 := Node(Leaf(5), 10, Empty);
    var t3 := Node(Leaf(5), 10, Leaf(15));
    assert BuildOrdered([10]) == Ok(t1);
    assert InsertPath(t1, 5) == [L];
    assert BuildOrdered([10, 5]) == Ok(t2);
    assert InsertPath(t2, 15) == [R];
    assert BuildOrdered(xs) == Ok(t3);
    assert LeftmostPath(t3) == [L, L];
  }

  /**
   * After 10 and 15 are inserted in order and 20 is hung left of 10, contains
   * no longer finds 15 (it is off the left spine), so insert accepts 15 a
   * second time.
   */
  lemma InsertAfterCorruptionDuplicates()
    ensures BuildOrdered([10, 15]) == Ok(Node(Empty, 10, Leaf(15)))
    ensures LeftmostInsert(Node(Empty, 10, Leaf(15)), 20) == Node(Leaf(20), 10, Leaf(15))
    ensures Lookup(Node(Leaf(20), 10, Leaf(15)), 15) == None
    ensures Elements(OrderedInsert(Node(Leaf(20), 10, Leaf(15)), 15))[15] == 2
  {
    var xs := [10, 15];
    assert xs[..1] == [10] && xs[..1][..0] == [];
    assert xs[..2] == xs && xs[..2][..1] == [10];
    assert InsertPath(Leaf(10), 15) == [R];
    assert BuildOrdered([10]) == Ok(Leaf(10));
    assert LeftmostPath(Node(Empty, 10, Leaf(15))) == [L];
    LookupMissesOffSpine();
    var t := Node(Leaf(20), 10, Leaf(15));
    assert InsertPath(t, 15) == [R, R];
    assert OrderedInsert(t, 15) == Node(Leaf(20), 10, Node(Empty, 15, Leaf(15)));
  }
}
