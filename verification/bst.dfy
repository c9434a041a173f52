/** The plain binary-search-tree node operations (`AbstractBSTreeNode` and its
    sentinel): insert, delete, the iterative search, and the predecessor /
    successor walks. The AVL node shares `Pred` and `Succ`, and `AVLTree`
    the search loop. */
module Bst {
  import opened Results
  import opened Trees

  /** `insert`: descend by comparison; the sentinel becomes a fresh node; an
      equal entry is dropped; the height is refreshed on the way back up. */
  function Insert(t: Tree, e: int): (t': Tree)
    ensures t'.Node?
    ensures Keys(t') == Keys(t) + {e}
    ensures SearchTree(t) ==> SearchTree(t')
    ensures HeightsOk(t) ==> HeightsOk(t')
    ensures SearchTree(t) ==> Len(t') == Len(t) + (if e in Keys(t) then 0 else 1)
  {
    match t
    case Empty => Node(e, Empty, Empty, 1)
    case Node(k, l, r, _) =>
      if e > k then Mk(k, l, Insert(r, e))
      else if e < k then Mk(k, Insert(l, e), r)
      else Mk(k, l, r)
  }

  /** Inserting an entry that is already stored gives back the very same tree:
      same shape, same entries, same cached heights. */
  lemma {:induction false} InsertPresentIsIdentity(t: Tree, e: int)
    requires SearchTree(t) && HeightsOk(t)
    requires e in Keys(t)
    ensures Insert(t, e) == t
  {
    var k := t.entry;
    if e > k {
      InsertPresentIsIdentity(t.right, e);
    } else if e < k {
      InsertPresentIsIdentity(t.left, e);
    }
  }

  /** `delete`: descend by comparison; the sentinel raises; a matching leaf
      is replaced by the sentinel; a matching node with a left child takes
      the left subtree's maximum as its entry and deletes that from the left;
      otherwise the right child replaces the node. */
  function Delete(t: Tree, e: int): (r: Result<Tree>)
    ensures e !in Keys(t) ==> r == Err(DeleteMissing(e))
    ensures r.Ok? && HeightsOk(t) ==> HeightsOk(r.value)
    ensures r.Ok? ==> Len(r.value) == Len(t) - 1
  {
    match t
    case Empty => Err(DeleteMissing(e))
    case Node(k, l, rt, _) =>
      if e > k then
        var rt' :- Delete(rt, e);
        Ok(Mk(k, l, rt'))
      else if e < k then
        var l' :- Delete(l, e);
        Ok(Mk(k, l', rt))
      else if IsLeaf(t) then
        Ok(Empty)
      else if l.Node? then
        var m := MaxKey(l);
        var l' :- Delete(l, m);
        Ok(Mk(m, l', rt))
      else
        Ok(rt)
  }

  /** Deleting a stored entry from a search tree succeeds, removes exactly
      that entry and keeps the ordering. */
  lemma {:induction false} DeletePresent(t: Tree, e: int)
    requires SearchTree(t)
    requires e in Keys(t)
    ensures Delete(t, e).Ok?
    ensures Keys(Delete(t, e).value) == Keys(t) - {e}
    ensures SearchTree(Delete(t, e).value)
  {
    var k, l, rt := t.entry, t.left, t.right;
    if e > k {
      DeletePresent(rt, e);
    } else if e < k {
      DeletePresent(l, e);
    } else if l.Node? {
      var m := MaxKey(l);
      DeletePresent(l, m);
      var l' := Delete(l, m).value;
      assert Delete(t, e) == Ok(Mk(m, l', rt));
      BelowRemovedMax(l, l');
      assert forall x :: x in Keys(rt) ==> m < x;
      assert Keys(l') + {m} == Keys(l);
    }
  }

  /** Removing the maximum `m` of a search tree leaves only keys below `m`. */
  lemma BelowRemovedMax(l: Tree, l': Tree)
    requires SearchTree(l) && l.Node?
    requires Keys(l') == Keys(l) - {MaxKey(l)}
    ensures forall x :: x in Keys(l') ==> x < MaxKey(l)
  {
    var m := MaxKey(l);
    forall x | x in Keys(l') ensures x < m {
      assert x in Keys(l) && x != m;
    }
  }

  /** `_search` / `search`: the iterative walk from the root. It succeeds with
      the stored entry equal to `e`, and on a search tree it succeeds exactly
      when `e` is stored. */
  method Search(t: Tree, e: int) returns (r: Result<int>)
    ensures r.Ok? ==> r.value == e && e in Keys(t)
    ensures r.Err? ==> r.error == EntryNotFound(e)
    ensures SearchTree(t) ==> (r.Ok? <==> e in Keys(t))
  {
    var node := t;
    while node.Node?
      invariant Keys(node) <= Keys(t)
      invariant SearchTree(t) ==> SearchTree(node) && (e in Keys(t) <==> e in Keys(node))
      decreases node
    {
      if e > node.entry {
        node := node.right;
      } else if e < node.entry {
        node := node.left;
      } else {
        return Ok(node.entry);
      }
    }
    return Err(EntryNotFound(e));
  }

  /** `__contains__`: the search, with its `KeyError` turned into false. */
  method Contains(t: Tree, e: int) returns (b: bool)
    ensures b ==> e in Keys(t)
    ensures SearchTree(t) ==> (b <==> e in Keys(t))
  {
    var r := Search(t, e);
    b := r.Ok?;
  }

  /** `pred(candidate, e)`: the walk carries the entry of the last node it
      left by going right; at the matching node the answer is the maximum of
      the left subtree, else the candidate, else `KeyError`. The sentinel
      raises unconditionally, so an entry that is not stored always fails. */
  function Pred(t: Tree, cand: Option<int>, e: int): (r: Result<int>)
    ensures e !in Keys(t) ==> r == Err(PredecessorNotFound(e))
    ensures r.Err? ==> r.error == PredecessorNotFound(e)
  {
    match t
    case Empty => Err(PredecessorNotFound(e))
    case Node(k, l, rt, _) =>
      if e > k then Pred(rt, Some(k), e)
      else if e < k then Pred(l, cand, e)
      else if l.Node? then Ok(MaxKey(l))
      else if cand.Some? then Ok(cand.value)
      else Err(PredecessorNotFound(e))
  }

  /** `succ(candidate, e)`: the mirror image of `Pred`. */
  function Succ(t: Tree, cand: Option<int>, e: int): (r: Result<int>)
    ensures e !in Keys(t) ==> r == Err(SuccessorNotFound(e))
    ensures r.Err? ==> r.error == SuccessorNotFound(e)
  {
    match t
    case Empty => Err(SuccessorNotFound(e))
    case Node(k, l, rt, _) =>
      if e > k then Succ(rt, cand, e)
      else if e < k then Succ(l, Some(k), e)
      else if rt.Node? then Ok(MinKey(rt))
      else if cand.Some? then Ok(cand.value)
      else Err(SuccessorNotFound(e))
  }

  /** `p` is the largest element of `s` below `e`. */
  ghost predicate IsPredecessor(s: set<int>, e: int, p: int) {
    p in s && p < e && forall x :: x in s && x < e ==> x <= p
  }

  /** `p` is the smallest element of `s` above `e`. */
  ghost predicate IsSuccessor(s: set<int>, e: int, p: int) {
    p in s && e < p && forall x :: x in s && e < x ==> p <= x
  }

  function OptSet(c: Option<int>): set<int> {
    if c.Some? then {c.value} else {}
  }

  /** The walk with a candidate that lies below `e` and below the whole
      subtree answers with the predecessor of `e` among the subtree's keys
      and the candidate, and fails exactly when there is none. */
  lemma {:induction false} PredWalk(t: Tree, cand: Option<int>, e: int)
    requires SearchTree(t) && e in Keys(t)
    requires cand.Some? ==> cand.value < e && forall x :: x in Keys(t) ==> cand.value < x
    ensures var s := Keys(t) + OptSet(cand);
      && (Pred(t, cand, e).Ok? <==> exists x :: x in s && x < e)
      && (Pred(t, cand, e).Ok? ==> IsPredecessor(s, e, Pred(t, cand, e).value))
  {
    var k, l, rt := t.entry, t.left, t.right;
    if e > k {
      PredWalk(rt, Some(k), e);
      assert k in Keys(rt) + OptSet(Some(k)) && k < e;
      assert k in Keys(t) + OptSet(cand) && k < e;
    } else if e < k {
      PredWalk(l, cand, e);
      var s, s' := Keys(t) + OptSet(cand), Keys(l) + OptSet(cand);
      if x :| x in s && x < e {
        assert x in s';
      }
    } else if l.Node? {
      var m := MaxKey(l);
      assert m in Keys(t) + OptSet(cand) && m < e;
    } else if cand.Some? {
      assert cand.value in Keys(t) + OptSet(cand);
    } else {
      assert forall x :: x in Keys(t) ==> e <= x;
    }
  }

  /** The mirror image of `PredWalk`. */
  lemma {:induction false} SuccWalk(t: Tree, cand: Option<int>, e: int)
    requires SearchTree(t) && e in Keys(t)
    requires cand.Some? ==> e < cand.value && forall x :: x in Keys(t) ==> x < cand.value
    ensures var s := Keys(t) + OptSet(cand);
      && (Succ(t, cand, e).Ok? <==> exists x :: x in s && e < x)
      && (Succ(t, cand, e).Ok? ==> IsSuccessor(s, e, Succ(t, cand, e).value))
  {
    var k, l, rt := t.entry, t.left, t.right;
    if e > k {
      SuccWalk(rt, cand, e);
      var s, s' := Keys(t) + OptSet(cand), Keys(rt) + OptSet(cand);
      if x :| x in s && e < x {
        assert x in s';
      }
    } else if e < k {
      SuccWalk(l, Some(k), e);
      assert k in Keys(l) + OptSet(Some(k)) && e < k;
      assert k in Keys(t) + OptSet(cand) && e < k;
    } else if rt.Node? {
      var m := MinKey(rt);
      assert m in Keys(t) + OptSet(cand) && e < m;
    } else if cand.Some? {
      assert cand.value in Keys(t) + OptSet(cand);
    } else {
      assert forall x :: x in Keys(t) ==> x <= e;
    }
  }
}
