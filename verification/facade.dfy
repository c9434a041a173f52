/** The tree facades `BinarySearchTree` (`AbstractBinarySearchTree`) and
    `AVLTree`: a variant tag and the root subtree. Every structural operation
    is delegated to the root, and the root is replaced by what comes back. */
module Facade {
  import opened Results
  import opened Trees
  import Bst
  import Avl
  import Traversal

  /** Which class the tree belongs to. */
  datatype Variant = BinarySearchTree | AVLTree

  datatype TreeSet = TreeSet(variant: Variant, root: Tree)

  /** The invariants every public operation keeps. */
  predicate Valid(s: TreeSet) {
    && SearchTree(s.root)
    && HeightsOk(s.root)
    && (s.variant == AVLTree ==> Avl.AvlBalanced(s.root))
  }

  function Keys(s: TreeSet): set<int> {
    Trees.Keys(s.root)
  }

  /** A new, empty tree. */
  function New(v: Variant): (s: TreeSet)
    ensures Valid(s) && Keys(s) == {} && s.variant == v
  {
    TreeSet(v, Empty)
  }

  /** `insert`: the root's insert for the variant. */
  function Insert(s: TreeSet, e: int): (s': TreeSet)
    ensures s'.variant == s.variant
    ensures Keys(s') == Keys(s) + {e}
  {
    match s.variant
    case BinarySearchTree => s.(root := Bst.Insert(s.root, e))
    case AVLTree => s.(root := Avl.Insert(s.root, e))
  }

  /** Insertion keeps the invariants, and re-inserting a stored entry leaves
      the tree exactly as it was. */
  lemma InsertKeepsValid(s: TreeSet, e: int)
    requires Valid(s)
    ensures Valid(Insert(s, e))
    ensures e in Keys(s) ==> Insert(s, e) == s
  {
    if s.variant == AVLTree {
      Avl.InsertKeepsAvl(s.root, e);
      if e in Keys(s) {
        Avl.InsertPresentIsIdentity(s.root, e);
      }
    } else if e in Keys(s) {
      Bst.InsertPresentIsIdentity(s.root, e);
    }
  }

  /** `delete`: the root's delete for the variant. On `KeyError` the tree is
      left exactly as it was, and the error is returned beside it. */
  function Delete(s: TreeSet, e: int): (res: (TreeSet, Option<Error>))
    ensures res.1.Some? ==> res.0 == s
    ensures res.0.variant == s.variant
    ensures e !in Keys(s) ==> res.1 == Some(DeleteMissing(e))
  {
    var r := match s.variant
      case BinarySearchTree => Bst.Delete(s.root, e)
      case AVLTree => Avl.Delete(s.root, e);
    match r
    case Ok(t) => (s.(root := t), None)
    case Err(x) => (s, Some(x))
  }

  /** Deleting a stored entry succeeds, removes exactly that entry and keeps
      the invariants. */
  lemma DeleteKeepsValid(s: TreeSet, e: int)
    requires Valid(s) && e in Keys(s)
    ensures Delete(s, e).1 == None
    ensures Keys(Delete(s, e).0) == Keys(s) - {e}
    ensures Valid(Delete(s, e).0)
  {
    if s.variant == AVLTree {
      Avl.DeleteKeepsAvl(s.root, e);
    } else {
      Bst.DeletePresent(s.root, e);
    }
  }

  /** `search` as intended and as `AVLTree.search` does it: the tree-level
      loop from the root, answering the stored entry equal to `e`, or
      `KeyError`. */
  method Search(s: TreeSet, e: int) returns (r: Result<int>)
    ensures r.Ok? ==> r.value == e && e in Keys(s)
    ensures Valid(s) ==> (r.Ok? <==> e in Keys(s))
    ensures r.Err? ==> r.error == EntryNotFound(e)
  {
    r := Bst.Search(s.root, e);
  }

  /** `search` as `AbstractBinarySearchTree` writes it: it asks the root
      node, and the plain tree's empty sentinel has no `search`, so on an
      empty `BinarySearchTree` it raises `AttributeError` instead of
      `KeyError`. On every other tree it is the loop of `Search`. */
  method SearchAsWritten(s: TreeSet, e: int) returns (r: Result<int>)
    ensures s.variant == BinarySearchTree && s.root.Empty? ==> r == Err(MissingAttribute)
    ensures s.variant == AVLTree || s.root.Node? ==>
      && (r.Ok? ==> r.value == e && e in Keys(s))
      && (Valid(s) ==> (r.Ok? <==> e in Keys(s)))
      && (r.Err? ==> r.error == EntryNotFound(e))
  {
    if s.variant == BinarySearchTree && s.root.Empty? {
      return Err(MissingAttribute);
    }
    r := Bst.Search(s.root, e);
  }

  /** `__contains__`: membership, never raising. */
  method Contains(s: TreeSet, e: int) returns (b: bool)
    ensures b ==> e in Keys(s)
    ensures Valid(s) ==> (b <==> e in Keys(s))
  {
    b := Bst.Contains(s.root, e);
  }

  /** `pred`: the walk from the root with no candidate. */
  function Pred(s: TreeSet, e: int): (r: Result<int>)
    ensures e !in Keys(s) ==> r == Err(PredecessorNotFound(e))
    ensures r.Err? ==> r.error == PredecessorNotFound(e)
  {
    Bst.Pred(s.root, None, e)
  }

  /** `succ`: the walk from the root with no candidate. */
  function Succ(s: TreeSet, e: int): (r: Result<int>)
    ensures e !in Keys(s) ==> r == Err(SuccessorNotFound(e))
    ensures r.Err? ==> r.error == SuccessorNotFound(e)
  {
    Bst.Succ(s.root, None, e)
  }

  /** For a stored entry, `pred` answers the largest smaller key and fails
      exactly when the entry is the minimum; `succ` answers the smallest
      greater key and fails exactly when the entry is the maximum. */
  lemma PredSuccAreNeighbours(s: TreeSet, e: int)
    requires Valid(s) && e in Keys(s)
    ensures Pred(s, e).Err? <==> forall x :: x in Keys(s) ==> e <= x
    ensures Pred(s, e).Err? ==> Pred(s, e).error == PredecessorNotFound(e)
    ensures Pred(s, e).Ok? ==> Bst.IsPredecessor(Keys(s), e, Pred(s, e).value)
    ensures Succ(s, e).Err? <==> forall x :: x in Keys(s) ==> x <= e
    ensures Succ(s, e).Err? ==> Succ(s, e).error == SuccessorNotFound(e)
    ensures Succ(s, e).Ok? ==> Bst.IsSuccessor(Keys(s), e, Succ(s, e).value)
  {
    Bst.PredWalk(s.root, None, e);
    Bst.SuccWalk(s.root, None, e);
    assert Keys(s) + Bst.OptSet(None) == Keys(s);
  }

  /** `max`: the loop down the right spine; the empty tree's sentinel has
      no `max`, so asking raises `AttributeError`. */
  method MaxEntry(s: TreeSet) returns (m: Result<int>)
    ensures m.Err? <==> s.root.Empty?
    ensures m.Err? ==> m.error == MissingAttribute
    ensures m.Ok? ==> m.value in Keys(s)
    ensures m.Ok? && Valid(s) ==> forall x :: x in Keys(s) ==> x <= m.value
  {
    if s.root.Empty? {
      return Err(MissingAttribute);
    }
    var v := MaxLoop(s.root);
    return Ok(v);
  }

  /** `min`: the loop down the left spine; on the empty tree it raises
      `AttributeError`. */
  method MinEntry(s: TreeSet) returns (m: Result<int>)
    ensures m.Err? <==> s.root.Empty?
    ensures m.Err? ==> m.error == MissingAttribute
    ensures m.Ok? ==> m.value in Keys(s)
    ensures m.Ok? && Valid(s) ==> forall x :: x in Keys(s) ==> m.value <= x
  {
    if s.root.Empty? {
      return Err(MissingAttribute);
    }
    var v := MinLoop(s.root);
    return Ok(v);
  }

  /** `clear` as intended, and as `BinarySearchTree.clear` does it: the
      root becomes the sentinel. */
  function Clear(s: TreeSet): (s': TreeSet)
    ensures Valid(s') && s'.variant == s.variant
    ensures Keys(s') == {} && Size(s') == 0
  {
    s.(root := Empty)
  }

  /** `clear` as written. The plain tree's nodes and sentinel all answer the
      plain sentinel. The AVL node's `clear` raises `AttributeError` on the
      AVL sentinel, so `AVLTree.clear` fails on an empty tree and on any tree
      with a one-child node; the root is then not reassigned and keeps the
      children the walk had already cleared. */
  function ClearAsWritten(s: TreeSet): (res: (TreeSet, Option<Error>))
    ensures res.1 == None ==> res.0 == Clear(s)
    ensures res.1.Some? ==> res.1 == Some(MissingAttribute) && res.0.variant == s.variant
    ensures Keys(res.0) <= Keys(s)
    ensures s.variant == BinarySearchTree ==> res.1 == None
    ensures s.variant == AVLTree ==> (res.1.Some? <==> s.root.Empty? || Avl.HasLoneChild(s.root))
  {
    match s.variant
    case BinarySearchTree => (Clear(s), None)
    case AVLTree =>
      Avl.ClearFailsExactly(s.root);
      var (state, raised) := Avl.ClearAsWritten(s.root);
      if raised then (s.(root := state), Some(MissingAttribute)) else (Clear(s), None)
  }

  /** `__len__`: the node count of the root. */
  function Size(s: TreeSet): nat {
    Len(s.root)
  }

  /** On a valid tree `len` counts the stored keys. */
  lemma SizeIsKeyCount(s: TreeSet)
    requires Valid(s)
    ensures Size(s) == |Keys(s)|
  {
    LenIsKeyCount(s.root);
  }

  /** `traverse(order)`. */
  function Traverse(s: TreeSet, order: string): (xs: seq<int>)
    ensures |xs| == Size(s)
    ensures forall x :: x in xs <==> x in Keys(s)
    ensures Valid(s) && Traversal.ParseOrder(order) == Traversal.InorderOrder ==> StrictlySorted(xs)
  {
    var xs := Traversal.Traverse(s.root, order);
    InorderKeys(s.root);
    SearchTreeIffSorted(s.root);
    assert forall x :: x in xs <==> x in multiset(xs);
    assert forall x :: x in Inorder(s.root) <==> x in multiset(Inorder(s.root));
    xs
  }

  /** The tree a sequence of inserts builds from an empty one. */
  function FromSeq(v: Variant, xs: seq<int>): (s: TreeSet)
    ensures s.variant == v
    ensures forall x :: x in Keys(s) <==> x in xs
    decreases |xs|
  {
    if xs == [] then New(v)
    else
      var init := xs[..|xs| - 1];
      assert xs == init + [xs[|xs| - 1]];
      Insert(FromSeq(v, init), xs[|xs| - 1])
  }

  /** The tree built from a sequence is valid. */
  lemma {:induction false} FromSeqValid(v: Variant, xs: seq<int>)
    ensures Valid(FromSeq(v, xs))
    decreases |xs|
  {
    if xs != [] {
      FromSeqValid(v, xs[..|xs| - 1]);
      InsertKeepsValid(FromSeq(v, xs[..|xs| - 1]), xs[|xs| - 1]);
    }
  }

  /** One more insert extends the built prefix by one entry. */
  lemma FromSeqStep(v: Variant, xs: seq<int>, i: nat)
    requires i < |xs|
    ensures FromSeq(v, xs[..i + 1]) == Insert(FromSeq(v, xs[..i]), xs[i])
  {
    var next := xs[..i + 1];
    assert next[..|next| - 1] == xs[..i] && next[|next| - 1] == xs[i];
  }

  /** `_init_tree` over a sequence: insert the entries one by one. */
  method Build(v: Variant, xs: seq<int>) returns (s: TreeSet)
    ensures s == FromSeq(v, xs)
    ensures Valid(s) && s.variant == v
    ensures forall x :: x in Keys(s) <==> x in xs
  {
    s := New(v);
    var i := 0;
    while i < |xs|
      invariant 0 <= i <= |xs|
      invariant s == FromSeq(v, xs[..i])
    {
      FromSeqStep(v, xs, i);
      s := Insert(s, xs[i]);
      i := i + 1;
    }
    assert xs[..i] == xs;
    FromSeqValid(v, xs);
  }

  /** `_init_tree` over a tree of the same class: re-insert its entries in
      breadth-first order. */
  method BuildFrom(other: TreeSet) returns (s: TreeSet)
    ensures s == FromSeq(other.variant, Traversal.Bfs(other.root))
    ensures Valid(s) && s.variant == other.variant
    ensures Keys(s) == Keys(other)
  {
    var xs := Traversal.Bfs(other.root);
    s := Build(other.variant, xs);
    assert forall x :: x in xs <==> x in multiset(xs);
    assert forall x :: x in Inorder(other.root) <==> x in multiset(Inorder(other.root));
    InorderKeys(other.root);
    assert forall x :: x in Keys(s) <==> x in Keys(other);
  }

  /** `__eq__` as intended: same class, same height, same length and equal
      roots, entry by entry. */
  function Equals(a: TreeSet, b: TreeSet): bool {
    && a.variant == b.variant
    && Height(a.root) == Height(b.root)
    && Len(a.root) == Len(b.root)
    && SameEntries(a.root, b.root)
  }

  /** Two valid trees are equal exactly when they are the same value. */
  lemma EqualsIsStructural(a: TreeSet, b: TreeSet)
    requires Valid(a) && Valid(b)
    ensures Equals(a, b) <==> a == b
  {
    SameEntriesIsEquality(a.root, b.root);
  }

  /** `__eq__` as written: the node comparison may raise. */
  function EqualsAsWritten(a: TreeSet, b: TreeSet): (r: Result<bool>)
    ensures r.Ok? ==> r.value == Equals(a, b)
    ensures Equals(a, b) ==> r == Ok(true)
    ensures !(a.variant == b.variant && Height(a.root) == Height(b.root) && Len(a.root) == Len(b.root)) ==> r == Ok(false)
  {
    if a.variant == b.variant && Height(a.root) == Height(b.root) && Len(a.root) == Len(b.root) then
      NodeEqAsWritten(a.root, b.root)
    else
      Ok(false)
  }
}
