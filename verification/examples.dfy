/** Concrete trees built by the public inserts and single operations on
    them, each stated as a datatype equality; the counterexamples behind the
    findings. */
module Examples {
  import opened Results
  import opened Trees
  import Bst
  import Avl
  import Traversal
  import Facade

  function Leaf(k: int): Tree {
    Node(k, Empty, Empty, 1)
  }

  function BuildPlain(xs: seq<int>): Facade.TreeSet {
    Facade.FromSeq(Facade.BinarySearchTree, xs)
  }

  function Plain(t: Tree): Facade.TreeSet {
    Facade.TreeSet(Facade.BinarySearchTree, t)
  }

  function BuildAvl(xs: seq<int>): Facade.TreeSet {
    Facade.FromSeq(Facade.AVLTree, xs)
  }

  function AvlSet(t: Tree): Facade.TreeSet {
    Facade.TreeSet(Facade.AVLTree, t)
  }

  /** The trees built from 9, 10, 9 and from 9, 4, 14, 17, 7, one insert at
      a time, from the shared first step. */
  lemma Built9()
    ensures BuildPlain([9]) == Plain(Leaf(9))
  {
    assert [9][..0] == [];
  }

  lemma DupBuilt2()
    ensures BuildPlain([9, 10]) == Plain(Node(9, Empty, Leaf(10), 2))
  {
    assert [9, 10][..1] == [9];
    Built9();
  }

  lemma DupBuilt3()
    ensures BuildPlain([9, 10, 9]) == Plain(Node(9, Empty, Leaf(10), 2))
  {
    assert [9, 10, 9][..2] == [9, 10];
    DupBuilt2();
  }

  /** Inserting 9 again into the tree built from 9, 10 leaves it as it was. */
  lemma DuplicateInsertDropped()
    ensures BuildPlain([9, 10, 9]) == BuildPlain([9, 10]) == Plain(Node(9, Empty, Leaf(10), 2))
  {
    DupBuilt2();
    DupBuilt3();
  }

  /** The tree built from 9, 4, 14, 17, 7, one insert at a time. */
  lemma HeightsBuilt2()
    ensures BuildPlain([9, 4]) == Plain(Node(9, Leaf(4), Empty, 2))
  {
    assert [9, 4][..1] == [9];
    Built9();
  }

  lemma HeightsBuilt3()
    ensures BuildPlain([9, 4, 14]) == Plain(Node(9, Leaf(4), Leaf(14), 2))
  {
    assert [9, 4, 14][..2] == [9, 4];
    HeightsBuilt2();
  }

  lemma HeightsBuilt4()
    ensures BuildPlain([9, 4, 14, 17]) == Plain(Node(9, Leaf(4), Node(14, Empty, Leaf(17), 2), 3))
  {
    assert [9, 4, 14, 17][..3] == [9, 4, 14];
    HeightsBuilt3();
  }

  lemma HeightsBuilt5()
    ensures BuildPlain([9, 4, 14, 17, 7]) == Plain(Node(9, Node(4, Empty, Leaf(7), 2), Node(14, Empty, Leaf(17), 2), 3))
  {
    assert [9, 4, 14, 17, 7][..4] == [9, 4, 14, 17];
    HeightsBuilt4();
  }

  /** The shape and cached heights after each insert of 9, 4, 14, 17, 7. */
  lemma InsertShapeAndHeights()
    ensures BuildPlain([9]).root == Leaf(9)
    ensures BuildPlain([9, 4]).root == Node(9, Leaf(4), Empty, 2)
    ensures BuildPlain([9, 4, 14]).root == Node(9, Leaf(4), Leaf(14), 2)
    ensures BuildPlain([9, 4, 14, 17]).root == Node(9, Leaf(4), Node(14, Empty, Leaf(17), 2), 3)
    ensures BuildPlain([9, 4, 14, 17, 7]).root == Node(9, Node(4, Empty, Leaf(7), 2), Node(14, Empty, Leaf(17), 2), 3)
  {
    Built9();
    HeightsBuilt2();
    HeightsBuilt3();
    HeightsBuilt4();
    HeightsBuilt5();
  }

  /** The tree the traversal examples walk. */
  function Sample(): Tree {
    Node(20, Leaf(10), Node(25, Leaf(23), Node(29, Empty, Leaf(30), 2), 3), 4)
  }

  /** The first two steps shared by the trees built from 20, 10, 25, 23, 29,
      30 and from 20, 10, 5, 7, 40, 30, 50. */
  lemma Built20()
    ensures BuildPlain([20]) == Plain(Leaf(20))
  {
    assert [20][..0] == [];
  }

  lemma Built2010()
    ensures BuildPlain([20, 10]) == Plain(Node(20, Leaf(10), Empty, 2))
  {
    assert [20, 10][..1] == [20];
    Built20();
  }

  /** The tree built from 20, 10, 25, 23, 29, 30, one insert at a time. */
  lemma SampleBuilt3()
    ensures BuildPlain([20, 10, 25]) == Plain(Node(20, Leaf(10), Leaf(25), 2))
  {
    assert [20, 10, 25][..2] == [20, 10];
    Built2010();
  }

  lemma SampleBuilt4()
    ensures BuildPlain([20, 10, 25, 23]) == Plain(Node(20, Leaf(10), Node(25, Leaf(23), Empty, 2), 3))
  {
    assert [20, 10, 25, 23][..3] == [20, 10, 25];
    SampleBuilt3();
  }

  lemma SampleBuilt5()
    ensures BuildPlain([20, 10, 25, 23, 29]) == Plain(Node(20, Leaf(10), Node(25, Leaf(23), Leaf(29), 2), 3))
  {
    assert [20, 10, 25, 23, 29][..4] == [20, 10, 25, 23];
    SampleBuilt4();
  }

  lemma SampleBuilt6()
    ensures BuildPlain([20, 10, 25, 23, 29, 30]) == Plain(Node(20, Leaf(10), Node(25, Leaf(23), Node(29, Empty, Leaf(30), 2), 3), 4))
  {
    assert [20, 10, 25, 23, 29, 30][..5] == [20, 10, 25, 23, 29];
    SampleBuilt5();
  }

  lemma SampleIsBuilt()
    ensures BuildPlain([20, 10, 25, 23, 29, 30]).root == Sample()
  {
    SampleBuilt6();
  }

  lemma PreorderOfRight()
    ensures Traversal.Preorder(Sample().right) == [25, 23, 29, 30]
  {
    assert Traversal.Preorder(Node(29, Empty, Leaf(30), 2)) == [29, 30];
  }

  lemma PostorderOfRight()
    ensures Traversal.Postorder(Sample().right) == [23, 30, 29, 25]
  {
    assert Traversal.Postorder(Node(29, Empty, Leaf(30), 2)) == [30, 29];
  }

  /** The four orders over `Sample()`. */
  lemma PreorderExample()
    ensures Traversal.Preorder(Sample()) == [20, 10, 25, 23, 29, 30]
  {
    assert [20] + [10] + [25, 23, 29, 30] == [20, 10, 25, 23, 29, 30];
    PreorderOfRight();
    assert Traversal.Preorder(Leaf(10)) == [10];
  }

  lemma InorderExample()
    ensures Traversal.Traverse(Sample(), "inorder") == [10, 20, 23, 25, 29, 30]
  {
  }

  lemma PostorderExample()
    ensures Traversal.Postorder(Sample()) == [10, 23, 30, 29, 25, 20]
  {
    assert [10] + [23, 30, 29, 25] + [20] == [10, 23, 30, 29, 25, 20];
    PostorderOfRight();
    assert Traversal.Postorder(Leaf(10)) == [10];
  }

  /** The queue loop once the root and its left child have been taken. */
  lemma BfsRightPart()
    ensures Traversal.BfsQueue([Sample().right, Empty, Empty]) == [25, 23, 29, 30]
  {
    var t23, t30 := Leaf(23), Leaf(30);
    var t29 := Node(29, Empty, t30, 2);
    var t25 := Node(25, t23, t29, 3);
    assert Traversal.BfsQueue([]) == [];
    assert [Empty][1..] == [];
    assert Traversal.BfsQueue([Empty]) == [];
    assert [Empty, Empty][1..] == [Empty];
    assert Traversal.BfsQueue([Empty, Empty]) == [];
    assert [t30][1..] + [Empty, Empty] == [Empty, Empty];
    assert Traversal.BfsQueue([t30]) == [30];
    assert [Empty, t30][1..] == [t30];
    assert Traversal.BfsQueue([Empty, t30]) == [30];
    assert [Empty, Empty, t30][1..] == [Empty, t30];
    assert Traversal.BfsQueue([Empty, Empty, t30]) == [30];
    assert [t29, Empty, Empty][1..] + [Empty, t30] == [Empty, Empty, Empty, t30];
    assert [Empty, Empty, Empty, t30][1..] == [Empty, Empty, t30];
    assert Traversal.BfsQueue([Empty, Empty, Empty, t30]) == [30];
    assert Traversal.BfsQueue([t29, Empty, Empty]) == [29, 30];
    assert [t23, t29][1..] + [Empty, Empty] == [t29, Empty, Empty];
    assert Traversal.BfsQueue([t23, t29]) == [23, 29, 30];
    assert [t25, Empty, Empty][1..] + [t23, t29] == [Empty, Empty, t23, t29];
    assert [Empty, Empty, t23, t29][1..] == [Empty, t23, t29];
    assert [Empty, t23, t29][1..] == [t23, t29];
    assert Traversal.BfsQueue([Empty, t23, t29]) == [23, 29, 30];
    assert Traversal.BfsQueue([Empty, Empty, t23, t29]) == [23, 29, 30];
  }

  lemma BfsExample()
    ensures Traversal.Bfs(Sample()) == [20, 10, 25, 23, 29, 30]
  {
    var t10, t25 := Leaf(10), Sample().right;
    BfsRightPart();
    assert [t10, t25][1..] + [Empty, Empty] == [t25, Empty, Empty];
    assert Traversal.BfsQueue([t10, t25]) == [10, 25, 23, 29, 30];
    assert [Sample()][1..] + [t10, t25] == [t10, t25];
    assert Traversal.BfsQueue([Sample()]) == [20, 10, 25, 23, 29, 30];
  }

  /** The tree built from 20, 10, 5, 7, 40, 30, 50, one insert at a time. */
  lemma RowBuilt3()
    ensures BuildPlain([20, 10, 5]) == Plain(Node(20, Node(10, Leaf(5), Empty, 2), Empty, 3))
  {
    assert [20, 10, 5][..2] == [20, 10];
    Built2010();
  }

  lemma RowBuilt4()
    ensures BuildPlain([20, 10, 5, 7]) == Plain(Node(20, Node(10, Node(5, Empty, Leaf(7), 2), Empty, 3), Empty, 4))
  {
    assert [20, 10, 5, 7][..3] == [20, 10, 5];
    RowBuilt3();
  }

  lemma RowBuilt5()
    ensures BuildPlain([20, 10, 5, 7, 40]) == Plain(Node(20, Node(10, Node(5, Empty, Leaf(7), 2), Empty, 3), Leaf(40), 4))
  {
    assert [20, 10, 5, 7, 40][..4] == [20, 10, 5, 7];
    RowBuilt4();
  }

  lemma RowBuilt6()
    ensures BuildPlain([20, 10, 5, 7, 40, 30]) == Plain(Node(20, Node(10, Node(5, Empty, Leaf(7), 2), Empty, 3), Node(40, Leaf(30), Empty, 2), 4))
  {
    assert [20, 10, 5, 7, 40, 30][..5] == [20, 10, 5, 7, 40];
    RowBuilt5();
  }

  lemma RowBuilt7()
    ensures BuildPlain([20, 10, 5, 7, 40, 30, 50]) == Plain(Node(20, Node(10, Node(5, Empty, Leaf(7), 2), Empty, 3), Node(40, Leaf(30), Leaf(50), 2), 4))
  {
    assert [20, 10, 5, 7, 40, 30, 50][..6] == [20, 10, 5, 7, 40, 30];
    RowBuilt6();
  }

  lemma DeleteLeftLeaf()
    ensures Bst.Delete(Node(7, Leaf(5), Empty, 2), 5) == Ok(Leaf(7))
  {
  }

  lemma DeleteRightLeaf()
    ensures Bst.Delete(Node(5, Empty, Leaf(7), 2), 7) == Ok(Leaf(5))
  {
  }

  lemma DeleteAtLeftChild()
    ensures Bst.Delete(Node(10, Node(5, Empty, Leaf(7), 2), Empty, 3), 10) == Ok(Node(7, Leaf(5), Empty, 2))
  {
    assert MaxKey(Node(5, Empty, Leaf(7), 2)) == 7;
    DeleteRightLeaf();
  }

  lemma RowDelete10()
    ensures Facade.Delete(Plain(Node(20, Node(10, Node(5, Empty, Leaf(7), 2), Empty, 3), Node(40, Leaf(30), Leaf(50), 2), 4)), 10)
         == (Plain(Node(20, Node(7, Leaf(5), Empty, 2), Node(40, Leaf(30), Leaf(50), 2), 3)), None)
  {
    DeleteAtLeftChild();
  }

  lemma RowDelete5()
    ensures Facade.Delete(Plain(Node(20, Node(7, Leaf(5), Empty, 2), Node(40, Leaf(30), Leaf(50), 2), 3)), 5)
         == (Plain(Node(20, Leaf(7), Node(40, Leaf(30), Leaf(50), 2), 3)), None)
  {
    DeleteLeftLeaf();
  }

  lemma RowDelete7()
    ensures Facade.Delete(Plain(Node(20, Leaf(7), Node(40, Leaf(30), Leaf(50), 2), 3)), 7)
         == (Plain(Node(20, Empty, Node(40, Leaf(30), Leaf(50), 2), 3)), None)
  {
  }

  lemma RowDelete20()
    ensures Facade.Delete(Plain(Node(20, Empty, Node(40, Leaf(30), Leaf(50), 2), 3)), 20)
         == (Plain(Node(40, Leaf(30), Leaf(50), 2)), None)
  {
  }

  lemma RowDelete40()
    ensures Facade.Delete(Plain(Node(40, Leaf(30), Leaf(50), 2)), 40)
         == (Plain(Node(30, Empty, Leaf(50), 2)), None)
  {
  }

  lemma RowDelete30()
    ensures Facade.Delete(Plain(Node(30, Empty, Leaf(50), 2)), 30)
         == (Plain(Leaf(50)), None)
  {
  }

  lemma RowDelete50()
    ensures Facade.Delete(Plain(Leaf(50)), 50)
         == (Plain(Empty), None)
  {
  }

  /** Deleting 10, 5, 7, 20, 40, 30 and 50 in a row from the tree built from
      20, 10, 5, 7, 40, 30, 50: each step succeeds, drops its entry and
      leaves the shape shown, and the last one empties the tree. */
  lemma DeleteEntriesInARow()
    ensures var s0 := BuildPlain([20, 10, 5, 7, 40, 30, 50]);
      var s1 := Facade.Delete(s0, 10).0;
      var s2 := Facade.Delete(s1, 5).0;
      var s3 := Facade.Delete(s2, 7).0;
      var s4 := Facade.Delete(s3, 20).0;
      var s5 := Facade.Delete(s4, 40).0;
      var s6 := Facade.Delete(s5, 30).0;
      var s7 := Facade.Delete(s6, 50).0;
      && s0.root == Node(20, Node(10, Node(5, Empty, Leaf(7), 2), Empty, 3), Node(40, Leaf(30), Leaf(50), 2), 4)
      && s1.root == Node(20, Node(7, Leaf(5), Empty, 2), Node(40, Leaf(30), Leaf(50), 2), 3)
      && s2.root == Node(20, Leaf(7), Node(40, Leaf(30), Leaf(50), 2), 3)
      && s3.root == Node(20, Empty, Node(40, Leaf(30), Leaf(50), 2), 3)
      && s4.root == Node(40, Leaf(30), Leaf(50), 2)
      && s5.root == Node(30, Empty, Leaf(50), 2)
      && s6.root == Leaf(50)
      && s7.root == Empty
  {
    RowBuilt7();
    RowDelete10();
    RowDelete5();
    RowDelete7();
    RowDelete20();
    RowDelete40();
    RowDelete30();
    RowDelete50();
  }

  /** Deleting 10 from the tree built from 1, 2, 3, or from an empty tree,
      raises and leaves the tree as it was. */
  lemma DeleteMissingRaises()
    ensures Facade.Delete(BuildPlain([1, 2, 3]), 10) == (BuildPlain([1, 2, 3]), Some(DeleteMissing(10)))
    ensures Facade.Delete(BuildPlain([]), 10) == (BuildPlain([]), Some(DeleteMissing(10)))
  {
    assert 10 !in Facade.Keys(BuildPlain([1, 2, 3]));
  }

  lemma AvlInsertBelowLeaf()
    ensures Avl.Insert(Leaf(2), 3) == Node(2, Empty, Leaf(3), 2)
  {
    assert Avl.BalanceIfUnbalanced(Node(2, Empty, Leaf(3), 2)) == Node(2, Empty, Leaf(3), 2);
  }

  lemma AvlRotateLeftOnce()
    ensures Avl.BalancedTree(1, Empty, Node(2, Empty, Leaf(3), 2)) == Node(2, Leaf(1), Leaf(3), 2)
  {
    var t := Node(1, Empty, Node(2, Empty, Leaf(3), 2), 3);
    assert Avl.BalancedTree(1, Empty, t.right) == Avl.BalanceIfUnbalanced(t);
    assert Avl.BalanceIfUnbalanced(t) == Avl.RotateLeft(t);
  }

  lemma AvlLeftRotationStep()
    ensures Avl.Insert(Node(1, Empty, Leaf(2), 2), 3) == Node(2, Leaf(1), Leaf(3), 2)
  {
    AvlInsertBelowLeaf();
    AvlRotateLeftOnce();
  }

  /** Inserting 3 into the AVL tree built from 1, 2 rotates left. */
  lemma AvlLeftRotation()
    ensures BuildAvl([1, 2, 3]) == AvlSet(Node(2, Leaf(1), Leaf(3), 2))
  {
    assert [1, 2, 3][..2] == [1, 2];
    AvlPairBuilt2();
    AvlLeftRotationStep();
  }

  lemma AvlDownBuilt1()
    ensures BuildAvl([3]) == AvlSet(Leaf(3))
  {
    assert [3][..0] == [];
  }

  lemma AvlInsertLeftOfThree()
    ensures Avl.Insert(Leaf(3), 1) == Node(3, Leaf(1), Empty, 2)
  {
    assert Avl.BalanceIfUnbalanced(Node(3, Leaf(1), Empty, 2)) == Node(3, Leaf(1), Empty, 2);
  }

  lemma AvlDownBuilt2()
    ensures BuildAvl([3, 1]) == AvlSet(Node(3, Leaf(1), Empty, 2))
  {
    assert [3, 1][..1] == [3];
    AvlDownBuilt1();
    AvlInsertLeftOfThree();
  }

  /** Inserting 2 into the AVL tree built from 3, 1 rotates left-right. */
  lemma AvlLeftRightRotation()
    ensures BuildAvl([3, 1, 2]) == AvlSet(Node(2, Leaf(1), Leaf(3), 2))
  {
    assert [3, 1, 2][..2] == [3, 1];
    AvlDownBuilt2();
    AvlLeftRightStep();
  }

  lemma AvlLeftRightStep()
    ensures Avl.Insert(Node(3, Leaf(1), Empty, 2), 2) == Node(2, Leaf(1), Leaf(3), 2)
  {
    var l := Node(1, Empty, Leaf(2), 2);
    assert Avl.Insert(Leaf(1), 2) == l;
    var t := Node(3, l, Empty, 3);
    assert Avl.BalancedTree(3, l, Empty) == Avl.BalanceIfUnbalanced(t);
    assert Avl.BalanceFactor(t) == 2 && Avl.BalanceFactor(l) == -1;
    assert Avl.RotateLeft(l) == Node(2, Leaf(1), Empty, 2);
    assert Avl.RotateLeftRight(t) == Avl.RotateRight(Node(3, Node(2, Leaf(1), Empty, 2), Empty, 3));
  }

  /** Deleting 1 from the AVL tree built from 1, 2: the node takes 2 from its
      right child. */
  lemma AvlDeleteTakesRightEntry()
    ensures Facade.Delete(BuildAvl([1, 2]), 1) == (AvlSet(Leaf(2)), None)
  {
    AvlPairBuilt2();
    AvlDeletePairStep();
  }

  lemma AvlDeletePairStep()
    ensures Avl.Delete(Node(1, Empty, Leaf(2), 2), 1) == Ok(Leaf(2))
  {
  }

  /** The AVL tree built from 1, 2, one insert at a time. */
  lemma AvlPairBuilt1()
    ensures BuildAvl([1]) == AvlSet(Leaf(1))
  {
    assert [1][..0] == [];
  }

  lemma AvlPairBuilt2()
    ensures BuildAvl([1, 2]) == AvlSet(Node(1, Empty, Leaf(2), 2))
  {
    assert [1, 2][..1] == [1];
    AvlPairBuilt1();
    AvlInsertRightOfOne();
  }

  lemma AvlInsertLeftOfTwo()
    ensures Avl.Insert(Leaf(2), 1) == Node(2, Leaf(1), Empty, 2)
  {
    assert Avl.BalanceIfUnbalanced(Node(2, Leaf(1), Empty, 2)) == Node(2, Leaf(1), Empty, 2);
  }

  lemma AvlInsertRightOfOne()
    ensures Avl.Insert(Leaf(1), 2) == Node(1, Empty, Leaf(2), 2)
  {
    assert Avl.BalanceIfUnbalanced(Node(1, Empty, Leaf(2), 2)) == Node(1, Empty, Leaf(2), 2);
  }

  /** The AVL tree built from 2, 1, 3, 4, one insert at a time. */
  lemma AvlFourBuilt1()
    ensures BuildAvl([2]) == AvlSet(Leaf(2))
  {
    assert [2][..0] == [];
  }

  lemma AvlFourBuilt2()
    ensures BuildAvl([2, 1]) == AvlSet(Node(2, Leaf(1), Empty, 2))
  {
    assert [2, 1][..1] == [2];
    AvlFourBuilt1();
    AvlInsertLeftOfTwo();
  }

  lemma AvlFourBuilt3()
    ensures BuildAvl([2, 1, 3]) == AvlSet(Node(2, Leaf(1), Leaf(3), 2))
  {
    assert [2, 1, 3][..2] == [2, 1];
    AvlFourBuilt2();
  }

  lemma AvlFourBuilt4()
    ensures BuildAvl([2, 1, 3, 4]) == AvlSet(Node(2, Leaf(1), Node(3, Empty, Leaf(4), 2), 3))
  {
    assert [2, 1, 3, 4][..3] == [2, 1, 3];
    AvlFourBuilt3();
  }

  lemma AvlClearPair()
    ensures Avl.ClearAsWritten(Node(1, Empty, Leaf(2), 2)) == (Node(1, Empty, Leaf(2), 2), true)
  {
  }

  lemma AvlClearFour()
    ensures Avl.ClearAsWritten(Node(2, Leaf(1), Node(3, Empty, Leaf(4), 2), 3))
         == (Node(2, Empty, Node(3, Empty, Leaf(4), 2), 3), true)
  {
    assert Avl.ClearAsWritten(Leaf(1)) == (Empty, false);
    assert Avl.ClearAsWritten(Node(3, Empty, Leaf(4), 2)) == (Node(3, Empty, Leaf(4), 2), true);
  }

  /** `clear` as written raises on the empty AVL tree. */
  lemma AvlClearEmptyRaises()
    ensures Facade.ClearAsWritten(BuildAvl([])) == (BuildAvl([]), Some(MissingAttribute))
  {
  }

  /** `clear` as written raises on the AVL tree built from 1, 2, whose root
      has one child, and leaves the tree as it was. */
  lemma AvlClearPairRaises()
    ensures Facade.ClearAsWritten(BuildAvl([1, 2])) == (BuildAvl([1, 2]), Some(MissingAttribute))
  {
    AvlPairBuilt2();
    var t := Node(1, Empty, Leaf(2), 2);
    AvlClearPair();
    assert Facade.ClearAsWritten(AvlSet(t)) == (AvlSet(t), Some(MissingAttribute));
  }

  /** On the AVL tree built from 2, 1, 3, 4, `clear` as written has already
      cleared the root's left child when it raises, so entry 1 is lost; the
      intended `clear` empties the tree. */
  lemma AvlClearLosesEntry()
    ensures BuildAvl([2, 1, 3, 4]) == AvlSet(Node(2, Leaf(1), Node(3, Empty, Leaf(4), 2), 3))
    ensures var s := AvlSet(Node(2, Leaf(1), Node(3, Empty, Leaf(4), 2), 3));
      var r := Facade.ClearAsWritten(s);
      && r == (AvlSet(Node(2, Empty, Node(3, Empty, Leaf(4), 2), 3)), Some(MissingAttribute))
      && 1 in Facade.Keys(s) && 1 !in Facade.Keys(r.0)
      && Facade.Clear(s) == Facade.New(Facade.AVLTree)
  {
    AvlFourBuilt4();
    AvlClearFacadeFour();
  }

  lemma AvlClearFacadeFour()
    ensures Facade.ClearAsWritten(AvlSet(Node(2, Leaf(1), Node(3, Empty, Leaf(4), 2), 3)))
         == (AvlSet(Node(2, Empty, Node(3, Empty, Leaf(4), 2), 3)), Some(MissingAttribute))
  {
    AvlClearFour();
  }

  /** `search` on an empty plain tree: as written it raises
      `AttributeError`, where its documentation promises the `KeyError` that
      the intended search, like `AVLTree.search`, raises. */
  method EmptySearchRaises() returns (written: Result<int>, intended: Result<int>)
    ensures written == Err(MissingAttribute)
    ensures intended == Err(EntryNotFound(3113))
  {
    var s := Facade.New(Facade.BinarySearchTree);
    written := Facade.SearchAsWritten(s, 3113);
    intended := Facade.Search(s, 3113);
  }

  /** The trees the plain inserts build from 2, 1, 0, 3 and from 2, 1, 3, 4,
      one insert at a time. */
  lemma Built2()
    ensures BuildPlain([2]) == Plain(Leaf(2))
  {
    assert [2][..0] == [];
  }

  lemma Built21()
    ensures BuildPlain([2, 1]) == Plain(Node(2, Leaf(1), Empty, 2))
  {
    assert [2, 1][..1] == [2];
    Built2();
  }

  lemma Built210()
    ensures BuildPlain([2, 1, 0]) == Plain(Node(2, Node(1, Leaf(0), Empty, 2), Empty, 3))
  {
    assert [2, 1, 0][..2] == [2, 1];
    Built21();
  }

  lemma Built2103()
    ensures BuildPlain([2, 1, 0, 3]) == Plain(Node(2, Node(1, Leaf(0), Empty, 2), Leaf(3), 3))
  {
    assert [2, 1, 0, 3][..3] == [2, 1, 0];
    Built210();
  }

  lemma Built213()
    ensures BuildPlain([2, 1, 3]) == Plain(Node(2, Leaf(1), Leaf(3), 2))
  {
    assert [2, 1, 3][..2] == [2, 1];
    Built21();
  }

  lemma Built2134()
    ensures BuildPlain([2, 1, 3, 4]) == Plain(Node(2, Leaf(1), Node(3, Empty, Leaf(4), 2), 3))
  {
    assert [2, 1, 3, 4][..3] == [2, 1, 3];
    Built213();
  }

  /** The trees built from 2, 1, 0, 3 and from 2, 1, 3, 4 have the same
      height and length, so the as-written equality compares their roots,
      reaches the left-hand tree's node 0 against the right-hand tree's
      empty slot, and raises; the intended equality answers false. */
  lemma EqualityRaises()
    ensures var a := BuildPlain([2, 1, 0, 3]);
      var b := BuildPlain([2, 1, 3, 4]);
      && Height(a.root) == Height(b.root) == 3
      && Len(a.root) == Len(b.root) == 4
      && Facade.EqualsAsWritten(a, b) == Err(MissingAttribute)
      && !Facade.Equals(a, b)
  {
    Built2103();
    Built2134();
    LiteralEqualityRaises();
  }

  lemma LiteralEqualityRaises()
    ensures var a := Plain(Node(2, Node(1, Leaf(0), Empty, 2), Leaf(3), 3));
      var b := Plain(Node(2, Leaf(1), Node(3, Empty, Leaf(4), 2), 3));
      && Len(a.root) == Len(b.root) == 4
      && Facade.EqualsAsWritten(a, b) == Err(MissingAttribute)
      && !Facade.Equals(a, b)
  {
    assert NodeEqAsWritten(Leaf(0), Empty) == Err(MissingAttribute);
    assert NodeEqAsWritten(Node(1, Leaf(0), Empty, 2), Leaf(1)) == Err(MissingAttribute);
  }
}
