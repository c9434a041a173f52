/** The AVL node (`_AVLNode`): the plain node's recursion with every insert
    and delete returning through `_balanced_tree`, which refreshes the height
    and then applies the single or double rotation the balance factor calls
    for. The AVL node's predecessor, successor, minimum and maximum repeat
    the plain node's verbatim (`Bst.Pred`, `Bst.Succ`, `Trees.MinKey`,
    `Trees.MaxKey`), and `AVLTree._search` repeats the plain search loop
    (`Bst.Search`). */
module Avl {
  import opened Results
  import opened Trees
  import Bst

  /** `balance_factor`: left height minus right height; 0 on the sentinel. */
  function BalanceFactor(t: Tree): int {
    if t.Empty? then 0 else Height(t.left) - Height(t.right)
  }

  /** Every node's balance factor is -1, 0 or 1. */
  predicate AvlBalanced(t: Tree) {
    match t
    case Empty => true
    case Node(_, l, r, _) => AvlBalanced(l) && AvlBalanced(r) && -1 <= Height(l) - Height(r) <= 1
  }

  /** The three invariants of an AVL tree. */
  predicate IsAvl(t: Tree) {
    SearchTree(t) && HeightsOk(t) && AvlBalanced(t)
  }

  /** `_rotate_left`: the right child becomes the root; the old root takes
      its left subtree; both heights are refreshed, the old root's first. */
  function RotateLeft(t: Tree): (r: Tree)
    requires t.Node? && t.right.Node?
    ensures Inorder(r) == Inorder(t)
    ensures Keys(r) == Keys(t)
    ensures SearchTree(t) ==> SearchTree(r)
    ensures HeightsOk(t.left) && HeightsOk(t.right) ==> HeightsOk(r)
  {
    var rt := t.right;
    var r := Mk(rt.entry, Mk(t.entry, t.left, rt.left), rt.right);
    SearchTreeIffSorted(t);
    SearchTreeIffSorted(r);
    r
  }

  /** `_rotate_right`: the mirror image of `RotateLeft`. */
  function RotateRight(t: Tree): (r: Tree)
    requires t.Node? && t.left.Node?
    ensures Inorder(r) == Inorder(t)
    ensures Keys(r) == Keys(t)
    ensures SearchTree(t) ==> SearchTree(r)
    ensures HeightsOk(t.left) && HeightsOk(t.right) ==> HeightsOk(r)
  {
    var lt := t.left;
    var r := Mk(lt.entry, lt.left, Mk(t.entry, lt.right, t.right));
    SearchTreeIffSorted(t);
    SearchTreeIffSorted(r);
    r
  }

  /** `_rotate_left_right`: rotate the left child left, re-attach it without
      refreshing this node's height, then rotate this node right. */
  function RotateLeftRight(t: Tree): (r: Tree)
    requires t.Node? && t.left.Node? && t.left.right.Node?
    ensures Inorder(r) == Inorder(t)
    ensures Keys(r) == Keys(t)
    ensures SearchTree(t) ==> SearchTree(r)
    ensures HeightsOk(t.left) && HeightsOk(t.right) ==> HeightsOk(r)
  {
    RotateRight(t.(left := RotateLeft(t.left)))
  }

  /** `_rotate_right_left`: the mirror image of `RotateLeftRight`. */
  function RotateRightLeft(t: Tree): (r: Tree)
    requires t.Node? && t.right.Node? && t.right.left.Node?
    ensures Inorder(r) == Inorder(t)
    ensures Keys(r) == Keys(t)
    ensures SearchTree(t) ==> SearchTree(r)
    ensures HeightsOk(t.left) && HeightsOk(t.right) ==> HeightsOk(r)
  {
    RotateLeft(t.(right := RotateRight(t.right)))
  }

  /** `_balance_tree_if_unbalanced`, with its branches in the source's order.
      Heights are natural numbers, so a balance factor of 2 means the left
      child is a node, and a left child with balance factor -1 has a right
      child; symmetrically on the right. */
  function BalanceIfUnbalanced(t: Tree): (r: Tree)
    requires t.Node?
    ensures Inorder(r) == Inorder(t)
    ensures Keys(r) == Keys(t)
    ensures SearchTree(t) ==> SearchTree(r)
    ensures HeightsOk(t) ==> HeightsOk(r)
    ensures -1 <= BalanceFactor(t) <= 1 ==> r == t
  {
    var bf := BalanceFactor(t);
    if bf == 2 && BalanceFactor(t.left) == -1 then RotateLeftRight(t)
    else if bf == -2 && BalanceFactor(t.right) == 1 then RotateRightLeft(t)
    else if bf == -2 then RotateLeft(t)
    else if bf == 2 then RotateRight(t)
    else t
  }

  /** `_balanced_tree` on a node over `l` and `r`: refresh the height, then
      rebalance. */
  function BalancedTree(k: int, l: Tree, r: Tree): (t: Tree)
    ensures Inorder(t) == Inorder(l) + [k] + Inorder(r)
    ensures Keys(t) == Keys(l) + {k} + Keys(r)
    ensures SearchTree(Mk(k, l, r)) ==> SearchTree(t)
    ensures HeightsOk(l) && HeightsOk(r) ==> HeightsOk(t)
  {
    BalanceIfUnbalanced(Mk(k, l, r))
  }

  /** One rebalancing step repairs a node whose children are AVL trees with
      heights at most two apart. Without rotation the height is one more than
      the taller child's; after a rotation it is the taller child's height or
      one more. */
  lemma RebalanceRestores(k: int, l: Tree, r: Tree)
    requires HeightsOk(l) && HeightsOk(r) && AvlBalanced(l) && AvlBalanced(r)
    requires -2 <= Height(l) - Height(r) <= 2
    ensures AvlBalanced(BalancedTree(k, l, r))
    ensures -1 <= Height(l) - Height(r) <= 1 ==> Height(BalancedTree(k, l, r)) == 1 + Max(Height(l), Height(r))
    ensures Max(Height(l), Height(r)) <= Height(BalancedTree(k, l, r)) <= 1 + Max(Height(l), Height(r))
  {
    var t := Mk(k, l, r);
    var hl: int, hr: int := Height(l), Height(r);
    if hl - hr == 2 {
      if BalanceFactor(l) == -1 {
        assert BalancedTree(k, l, r) == RotateLeftRight(t);
        LeftRightRepairs(t);
      } else {
        assert BalancedTree(k, l, r) == RotateRight(t);
        RightRepairs(t);
      }
    } else if hl - hr == -2 {
      if BalanceFactor(r) == 1 {
        assert BalancedTree(k, l, r) == RotateRightLeft(t);
        RightLeftRepairs(t);
      } else {
        assert BalancedTree(k, l, r) == RotateLeft(t);
        LeftRepairs(t);
      }
    } else {
      assert BalancedTree(k, l, r) == t;
    }
  }

  /** `BalancedTree` over two AVL trees separated by `k` and at most two
      levels apart in height is an AVL tree. */
  lemma BalancedTreeIsAvl(k: int, l: Tree, r: Tree)
    requires IsAvl(l) && IsAvl(r)
    requires forall x :: x in Keys(l) ==> x < k
    requires forall x :: x in Keys(r) ==> k < x
    requires -2 <= Height(l) - Height(r) <= 2
    ensures IsAvl(BalancedTree(k, l, r))
    ensures -1 <= Height(l) - Height(r) <= 1 ==> Height(BalancedTree(k, l, r)) == 1 + Max(Height(l), Height(r))
    ensures Max(Height(l), Height(r)) <= Height(BalancedTree(k, l, r)) <= 1 + Max(Height(l), Height(r))
  {
    RebalanceRestores(k, l, r);
    assert SearchTree(Mk(k, l, r));
  }

  /** A single right rotation repairs a node whose left child is two levels
      taller and not right-heavy. */
  lemma RightRepairs(t: Tree)
    requires t.Node? && t.left.Node?
    requires HeightsOk(t.left) && HeightsOk(t.right) && AvlBalanced(t.left) && AvlBalanced(t.right)
    requires Height(t.left) - Height(t.right) == 2 && BalanceFactor(t.left) != -1
    ensures AvlBalanced(RotateRight(t))
    ensures Height(t.left) <= Height(RotateRight(t)) <= Height(t.left) + 1
  {
    var x, a, b, c := t.left.entry, t.left.left, t.left.right, t.right;
    assert RotateRight(t) == Mk(x, a, Mk(t.entry, b, c));
  }

  /** The mirror image of `RightRepairs`. */
  lemma LeftRepairs(t: Tree)
    requires t.Node? && t.right.Node?
    requires HeightsOk(t.left) && HeightsOk(t.right) && AvlBalanced(t.left) && AvlBalanced(t.right)
    requires Height(t.right) - Height(t.left) == 2 && BalanceFactor(t.right) != 1
    ensures AvlBalanced(RotateLeft(t))
    ensures Height(t.right) <= Height(RotateLeft(t)) <= Height(t.right) + 1
  {
    var x, a, b, c := t.right.entry, t.left, t.right.left, t.right.right;
    assert RotateLeft(t) == Mk(x, Mk(t.entry, a, b), c);
  }

  /** A left-right rotation repairs a node whose left child is two levels
      taller and right-heavy. */
  lemma LeftRightRepairs(t: Tree)
    requires t.Node? && t.left.Node? && t.left.right.Node?
    requires HeightsOk(t.left) && HeightsOk(t.right) && AvlBalanced(t.left) && AvlBalanced(t.right)
    requires Height(t.left) - Height(t.right) == 2 && BalanceFactor(t.left) == -1
    ensures AvlBalanced(RotateLeftRight(t))
    ensures Height(RotateLeftRight(t)) == Height(t.left)
  {
    var x, a, y, b, c, d := t.left.entry, t.left.left, t.left.right.entry, t.left.right.left, t.left.right.right, t.right;
    assert RotateLeftRight(t) == Mk(y, Mk(x, a, b), Mk(t.entry, c, d));
  }

  /** The mirror image of `LeftRightRepairs`. */
  lemma RightLeftRepairs(t: Tree)
    requires t.Node? && t.right.Node? && t.right.left.Node?
    requires HeightsOk(t.left) && HeightsOk(t.right) && AvlBalanced(t.left) && AvlBalanced(t.right)
    requires Height(t.right) - Height(t.left) == 2 && BalanceFactor(t.right) == 1
    ensures AvlBalanced(RotateRightLeft(t))
    ensures Height(RotateRightLeft(t)) == Height(t.right)
  {
    var x, y, a, b, c, d := t.right.entry, t.right.left.entry, t.left, t.right.left.left, t.right.left.right, t.right.right;
    assert RotateRightLeft(t) == Mk(y, Mk(t.entry, a, b), Mk(x, c, d));
  }

  /** `insert`: the plain node's descent, returning through `BalancedTree`.
      It stores the same entries in the same order as the plain insert. */
  function Insert(t: Tree, e: int): (t': Tree)
    ensures t'.Node?
    ensures Keys(t') == Keys(t) + {e}
    ensures Inorder(t') == Inorder(Bst.Insert(t, e))
  {
    match t
    case Empty => Node(e, Empty, Empty, 1)
    case Node(k, l, r, _) =>
      if e > k then BalancedTree(k, l, Insert(r, e))
      else if e < k then BalancedTree(k, Insert(l, e), r)
      else BalancedTree(k, l, r)
  }

  /** Insertion keeps all three AVL invariants and grows the height by at
      most one. */
  lemma {:induction false} InsertKeepsAvl(t: Tree, e: int)
    requires IsAvl(t)
    ensures IsAvl(Insert(t, e))
    ensures Height(t) <= Height(Insert(t, e)) <= Height(t) + 1
  {
    if t.Node? {
      var k, l, r := t.entry, t.left, t.right;
      if e > k {
        InsertKeepsAvl(r, e);
        BalancedTreeIsAvl(k, l, Insert(r, e));
      } else if e < k {
        InsertKeepsAvl(l, e);
        BalancedTreeIsAvl(k, Insert(l, e), r);
      } else {
        BalancedTreeIsAvl(k, l, r);
      }
    }
  }

  /** Re-inserting a stored entry gives back the very same tree. */
  lemma {:induction false} InsertPresentIsIdentity(t: Tree, e: int)
    requires IsAvl(t)
    requires e in Keys(t)
    ensures Insert(t, e) == t
  {
    var k, l, r := t.entry, t.left, t.right;
    if e > k {
      InsertPresentIsIdentity(r, e);
    } else if e < k {
      InsertPresentIsIdentity(l, e);
    }
  }

  /** `delete`: the plain node's descent, returning through `BalancedTree`.
      A matching node with an empty left child takes its right child's entry
      and deletes that from the right child, instead of being replaced. */
  function Delete(t: Tree, e: int): (r: Result<Tree>)
    ensures e !in Keys(t) ==> r == Err(DeleteMissing(e))
  {
    match t
    case Empty => Err(DeleteMissing(e))
    case Node(k, l, rt, _) =>
      if e > k then
        var rt' :- Delete(rt, e);
        Ok(BalancedTree(k, l, rt'))
      else if e < k then
        var l' :- Delete(l, e);
        Ok(BalancedTree(k, l', rt))
      else if IsLeaf(t) then
        // The source returns the plain tree's sentinel `EMPTY_NODE` here
        // rather than `EMPTY_AVL_NODE`, so a later insert at this position
        // builds a plain `BSTreeNode` that cannot rebalance. The model has a
        // single sentinel and keeps rebalancing there.
        Ok(Empty)
      else if l.Node? then
        var m := MaxKey(l);
        var l' :- Delete(l, m);
        Ok(BalancedTree(m, l', rt))
      else
        var m := rt.entry;
        var rt' :- Delete(rt, m);
        Ok(BalancedTree(m, l, rt'))
  }

  /** In an AVL tree a node whose left child is empty has a right child that
      is a single leaf, so that child's entry is its only key. */
  lemma RightOfEmptyLeftIsLeaf(t: Tree)
    requires IsAvl(t)
    requires t.Node? && t.left.Empty? && t.right.Node?
    ensures t.right.left.Empty? && t.right.right.Empty?
    ensures Keys(t.right) == {t.right.entry}
  {
    var rt := t.right;
    assert HeightsOk(rt) && Height(rt) <= 1;
    assert HeightsOk(rt.left) && HeightsOk(rt.right);
  }

  /** `t'` is `t` without `e`, an AVL tree at most one level lower. */
  ghost predicate Removes(t: Tree, e: int, t': Tree) {
    && Keys(t') == Keys(t) - {e}
    && IsAvl(t')
    && Height(t) - 1 <= Height(t') <= Height(t)
  }

  /** Deleting a stored entry keeps the three AVL invariants, removes exactly
      that entry and lowers the height by at most one. */
  lemma {:induction false} DeleteKeepsAvl(t: Tree, e: int)
    requires IsAvl(t)
    requires e in Keys(t)
    ensures Delete(t, e).Ok?
    ensures Keys(Delete(t, e).value) == Keys(t) - {e}
    ensures IsAvl(Delete(t, e).value)
    ensures Height(t) - 1 <= Height(Delete(t, e).value) <= Height(t)
  {
    var k, l, rt := t.entry, t.left, t.right;
    if e > k {
      DeleteKeepsAvl(rt, e);
      DeleteRightStep(t, e);
    } else if e < k {
      DeleteKeepsAvl(l, e);
      DeleteLeftStep(t, e);
    } else if IsLeaf(t) {
    } else if l.Node? {
      DeleteKeepsAvl(l, MaxKey(l));
      DeleteReplaceStep(t);
    } else {
      DeleteLiftStep(t);
    }
  }

  lemma DeleteRightStep(t: Tree, e: int)
    requires IsAvl(t) && t.Node? && e > t.entry
    requires Delete(t.right, e).Ok? && Removes(t.right, e, Delete(t.right, e).value)
    ensures Delete(t, e).Ok? && Removes(t, e, Delete(t, e).value)
  {
    var rt' := Delete(t.right, e).value;
    assert e !in Keys(t.left);
    BalancedTreeIsAvl(t.entry, t.left, rt');
  }

  lemma DeleteLeftStep(t: Tree, e: int)
    requires IsAvl(t) && t.Node? && e < t.entry
    requires Delete(t.left, e).Ok? && Removes(t.left, e, Delete(t.left, e).value)
    ensures Delete(t, e).Ok? && Removes(t, e, Delete(t, e).value)
  {
    var l' := Delete(t.left, e).value;
    assert e !in Keys(t.right);
    BalancedTreeIsAvl(t.entry, l', t.right);
  }

  /** Rebuilding a node around its left subtree's maximum, over that subtree
      without the maximum, removes the node's own entry. */
  lemma ReplaceRemoves(t: Tree, l': Tree)
    requires IsAvl(t) && t.Node? && t.left.Node?
    requires Removes(t.left, MaxKey(t.left), l')
    ensures Removes(t, t.entry, BalancedTree(MaxKey(t.left), l', t.right))
  {
    var k, l, rt := t.entry, t.left, t.right;
    var m := MaxKey(l);
    assert SearchTree(l) && m < k;
    Bst.BelowRemovedMax(l, l');
    assert forall x :: x in Keys(rt) ==> m < x;
    BalancedTreeIsAvl(m, l', rt);
    assert k !in Keys(l) + Keys(rt);
    assert Keys(l') + {m} == Keys(l);
  }

  lemma DeleteReplaceStep(t: Tree)
    requires IsAvl(t) && t.Node? && t.left.Node?
    requires Delete(t.left, MaxKey(t.left)).Ok?
    requires Removes(t.left, MaxKey(t.left), Delete(t.left, MaxKey(t.left)).value)
    ensures Delete(t, t.entry).Ok? && Removes(t, t.entry, Delete(t, t.entry).value)
  {
    var m := MaxKey(t.left);
    var l' := Delete(t.left, m).value;
    assert Delete(t, t.entry) == Ok(BalancedTree(m, l', t.right));
    ReplaceRemoves(t, l');
  }

  lemma DeleteLiftStep(t: Tree)
    requires IsAvl(t) && t.Node? && t.left.Empty? && t.right.Node?
    ensures Delete(t, t.entry).Ok? && Removes(t, t.entry, Delete(t, t.entry).value)
  {
    RightOfEmptyLeftIsLeaf(t);
    var m := t.right.entry;
    assert Delete(t.right, m) == Ok(Empty);
    BalancedTreeIsAvl(m, Empty, Empty);
  }

  /** On an AVL tree the balanced operations store exactly what the plain
      ones store, in the same in-order sequence; delete fails for the same
      entries. */
  lemma SameEffectAsPlain(t: Tree, e: int)
    requires IsAvl(t)
    ensures Inorder(Insert(t, e)) == Inorder(Bst.Insert(t, e))
    ensures Delete(t, e).Ok? <==> Bst.Delete(t, e).Ok?
    ensures Delete(t, e).Ok? ==> Inorder(Delete(t, e).value) == Inorder(Bst.Delete(t, e).value)
  {
    if e in Keys(t) {
      DeleteKeepsAvl(t, e);
      Bst.DeletePresent(t, e);
      var a, b := Delete(t, e).value, Bst.Delete(t, e).value;
      SearchTreeIffSorted(a);
      SearchTreeIffSorted(b);
      InorderKeys(a);
      InorderKeys(b);
      SortedUnique(Inorder(a), Inorder(b));
    }
  }

  /** A node somewhere in the tree with exactly one child. */
  predicate HasLoneChild(t: Tree) {
    t.Node? && (t.left.Node? != t.right.Node? || HasLoneChild(t.left) || HasLoneChild(t.right))
  }

  /** `_AVLNode.clear` as written, on a tree whose empty children are all the
      AVL sentinel, which has no `clear`: asking it raises `AttributeError`.
      The pair holds what the caller's slot refers to afterwards and whether
      the call raised. A leaf answers the sentinel. Any other node clears and
      reassigns its left child, then its right child; a raise stops the walk
      and leaves the reassignments made so far in place. */
  function ClearAsWritten(t: Tree): (r: (Tree, bool))
    ensures !r.1 ==> r.0 == Empty
    ensures r.1 ==> r.0.Node? == t.Node? && (t.Node? ==> r.0.entry == t.entry)
    ensures Keys(r.0) <= Keys(t)
  {
    match t
    case Empty => (Empty, true)
    case Node(k, l, rt, h) =>
      if l.Empty? && rt.Empty? then (Empty, false)
      else
        var (ls, lraised) := ClearAsWritten(l);
        if lraised then (Node(k, ls, rt, h), true)
        else
          var (rs, rraised) := ClearAsWritten(rt);
          if rraised then (Node(k, Empty, rs, h), true)
          else (Empty, false)
  }

  /** The as-written `clear` raises exactly on the bare sentinel and on a tree
      with a one-child node somewhere. */
  lemma {:induction false} ClearFailsExactly(t: Tree)
    ensures ClearAsWritten(t).1 <==> t.Empty? || HasLoneChild(t)
  {
    if t.Node? && !(t.left.Empty? && t.right.Empty?) {
      ClearFailsExactly(t.left);
      ClearFailsExactly(t.right);
    }
  }
}
