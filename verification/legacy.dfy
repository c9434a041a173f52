/** The older plain tree of pybstrees.py. Its node class `BSTNode` and
    sentinel are the plain node operations of `Bst` and `Trees` line for
    line; its facade differs from `Facade.TreeSet` only in what it lacks (no
    predecessor, successor, public search, height, equality or clear, no
    default traversal order, and no copy-construction from another tree). */
module Legacy {
  import opened Results
  import opened Trees
  import Bst
  import Traversal
  import Facade

  /** `BinarySearchTree` of pybstrees.py. */
  datatype LegacyTree = LegacyTree(root: Tree)

  /** The same tree seen through the newer facade. */
  function AsPlain(s: LegacyTree): Facade.TreeSet {
    Facade.TreeSet(Facade.BinarySearchTree, s.root)
  }

  /** `insert`. */
  function Insert(s: LegacyTree, e: int): (s': LegacyTree)
    ensures Keys(s'.root) == Keys(s.root) + {e}
    ensures SearchTree(s.root) && HeightsOk(s.root) ==> SearchTree(s'.root) && HeightsOk(s'.root)
  {
    LegacyTree(Bst.Insert(s.root, e))
  }

  /** `delete`; on `KeyError` the tree is left as it was. */
  function Delete(s: LegacyTree, e: int): (res: (LegacyTree, Option<Error>))
    ensures res.1.Some? ==> res.0 == s
    ensures e !in Keys(s.root) ==> res.1 == Some(DeleteMissing(e))
  {
    match Bst.Delete(s.root, e)
    case Ok(t) => (LegacyTree(t), None)
    case Err(x) => (s, Some(x))
  }

  /** `__contains__`: the private search, with its `KeyError` turned into
      false. */
  method Contains(s: LegacyTree, e: int) returns (b: bool)
    ensures b ==> e in Keys(s.root)
    ensures SearchTree(s.root) ==> (b <==> e in Keys(s.root))
  {
    b := Bst.Contains(s.root, e);
  }

  /** `max`: the node's loop down the right spine; on the empty tree it
      raises `AttributeError`. */
  method MaxEntry(s: LegacyTree) returns (m: Result<int>)
    ensures m.Err? <==> s.root.Empty?
    ensures m.Err? ==> m.error == MissingAttribute
    ensures m.Ok? ==> m.value in Keys(s.root)
    ensures m.Ok? && SearchTree(s.root) ==> forall x :: x in Keys(s.root) ==> x <= m.value
  {
    if s.root.Empty? {
      return Err(MissingAttribute);
    }
    var v := MaxLoop(s.root);
    return Ok(v);
  }

  /** `min`: the node's loop down the left spine; on the empty tree it
      raises `AttributeError`. */
  method MinEntry(s: LegacyTree) returns (m: Result<int>)
    ensures m.Err? <==> s.root.Empty?
    ensures m.Err? ==> m.error == MissingAttribute
    ensures m.Ok? ==> m.value in Keys(s.root)
    ensures m.Ok? && SearchTree(s.root) ==> forall x :: x in Keys(s.root) ==> m.value <= x
  {
    if s.root.Empty? {
      return Err(MissingAttribute);
    }
    var v := MinLoop(s.root);
    return Ok(v);
  }

  /** `traverse(order)`: the order has no default here, but any unknown
      string still selects the in-order traversal. */
  function Traverse(s: LegacyTree, order: string): (xs: seq<int>)
    ensures |xs| == Len(s.root)
    ensures multiset(xs) == multiset(Inorder(s.root))
    ensures order !in {"preorder", "postorder", "bfs"} ==> xs == Inorder(s.root)
  {
    Traversal.Traverse(s.root, order)
  }

  /** The constructor: insert the entries of a sequence one by one. */
  method Build(xs: seq<int>) returns (s: LegacyTree)
    ensures SearchTree(s.root) && HeightsOk(s.root)
    ensures forall x :: x in Keys(s.root) <==> x in xs
    ensures Len(s.root) <= |xs|
  {
    s := LegacyTree(Empty);
    var i := 0;
    while i < |xs|
      invariant 0 <= i <= |xs|
      invariant SearchTree(s.root) && HeightsOk(s.root)
      invariant forall x :: x in Keys(s.root) <==> x in xs[..i]
      invariant Len(s.root) <= i
    {
      s := Insert(s, xs[i]);
      assert xs[..i + 1] == xs[..i] + [xs[i]];
      i := i + 1;
    }
    assert xs[..i] == xs;
  }

  /** Insert, delete and traverse compute exactly what the newer plain
      facade computes on the same root. */
  lemma SameAsPlainFacade(s: LegacyTree, e: int, order: string)
    ensures Insert(s, e).root == Facade.Insert(AsPlain(s), e).root
    ensures Delete(s, e).0.root == Facade.Delete(AsPlain(s), e).0.root
    ensures Delete(s, e).1 == Facade.Delete(AsPlain(s), e).1
    ensures Traverse(s, order) == Facade.Traverse(AsPlain(s), order)
  {
  }
}
