/** The subtree shared by the plain binary search tree and the AVL tree:
    the empty null-object sentinel or a node holding an entry, two children
    and a cached height, together with the abstractions every operation is
    specified against (key set, in-order sequence, node count) and the two
    structural invariants (search-tree ordering and cached heights). */
module Trees {
  import opened Results

  /** `Empty` is `EmptyBSTNode` / `_EmptyAVLNode` (height 0, length 0, falsy);
      `Node` is `BSTreeNode` / `_AVLNode`. The cached height is a field, as in
      the source, so that stale heights can be expressed; `HeightsOk` says
      when it is right. */
  datatype Tree = Empty | Node(entry: int, left: Tree, right: Tree, height: nat)

  function Max(a: int, b: int): int {
    if a < b then b else a
  }

  /** The `height` attribute: 0 on the sentinel, the cached value on a node. */
  function Height(t: Tree): nat {
    if t.Empty? then 0 else t.height
  }

  /** A node over `l` and `r` after `_update_height`: its height is
      recomputed from the children's cached heights. */
  function Mk(k: int, l: Tree, r: Tree): Tree {
    Node(k, l, r, 1 + Max(Height(l), Height(r)))
  }

  /** `__len__`: the number of nodes. */
  function Len(t: Tree): nat {
    if t.Empty? then 0 else 1 + Len(t.left) + Len(t.right)
  }

  /** The set of entries stored in the subtree. */
  function Keys(t: Tree): set<int> {
    if t.Empty? then {} else Keys(t.left) + {t.entry} + Keys(t.right)
  }

  /** Left subtree, entry, right subtree. */
  function Inorder(t: Tree): seq<int> {
    if t.Empty? then [] else Inorder(t.left) + [t.entry] + Inorder(t.right)
  }

  /** Search-tree ordering: at every node, all entries on the left are smaller
      and all entries on the right are greater than the node's entry. */
  predicate SearchTree(t: Tree) {
    match t
    case Empty => true
    case Node(k, l, r, _) =>
      && SearchTree(l)
      && SearchTree(r)
      && (forall x :: x in Keys(l) ==> x < k)
      && (forall x :: x in Keys(r) ==> k < x)
  }

  /** Every cached height equals one more than the larger child height. */
  predicate HeightsOk(t: Tree) {
    match t
    case Empty => true
    case Node(_, l, r, h) => HeightsOk(l) && HeightsOk(r) && h == 1 + Max(Height(l), Height(r))
  }

  predicate StrictlySorted(s: seq<int>) {
    forall i, j :: 0 <= i < j < |s| ==> s[i] < s[j]
  }

  /** The in-order sequence lists exactly the key set. */
  lemma {:induction false} InorderKeys(t: Tree)
    ensures forall x :: x in Inorder(t) <==> x in Keys(t)
  {
    if t.Node? {
      InorderKeys(t.left);
      InorderKeys(t.right);
    }
  }

  /** The in-order sequence has one element per node. */
  lemma {:induction false} InorderLength(t: Tree)
    ensures |Inorder(t)| == Len(t)
  {
    if t.Node? {
      InorderLength(t.left);
      InorderLength(t.right);
    }
  }

  /** A strictly increasing sequence around `k` splits into two strictly
      increasing halves below and above `k`. */
  lemma SortedSplit(a: seq<int>, k: int, b: seq<int>)
    requires StrictlySorted(a + [k] + b)
    ensures StrictlySorted(a) && StrictlySorted(b)
    ensures forall x :: x in a ==> x < k
    ensures forall x :: x in b ==> k < x
  {
    var s := a + [k] + b;
    assert forall i :: 0 <= i < |a| ==> s[i] == a[i];
    assert forall i :: 0 <= i < |b| ==> s[|a| + 1 + i] == b[i];
    assert s[|a|] == k;
    forall x | x in a ensures x < k {
      var i :| 0 <= i < |a| && a[i] == x;
      assert s[i] == x;
    }
    forall x | x in b ensures k < x {
      var i :| 0 <= i < |b| && b[i] == x;
      assert s[|a| + 1 + i] == x;
    }
  }

  /** Two strictly increasing halves below and above `k` join around it
      into a strictly increasing sequence. */
  lemma SortedJoin(a: seq<int>, k: int, b: seq<int>)
    requires StrictlySorted(a) && StrictlySorted(b)
    requires forall x :: x in a ==> x < k
    requires forall x :: x in b ==> k < x
    ensures StrictlySorted(a + [k] + b)
  {
    var s := a + [k] + b;
    forall i, j | 0 <= i < j < |s| ensures s[i] < s[j] {
      if j < |a| {
        assert s[i] == a[i] && s[j] == a[j];
      } else if j == |a| {
        assert s[i] == a[i] && a[i] in a;
      } else if i > |a| {
        assert s[i] == b[i - |a| - 1] && s[j] == b[j - |a| - 1];
      } else {
        assert s[j] == b[j - |a| - 1] && b[j - |a| - 1] in b;
        if i < |a| {
          assert s[i] == a[i] && a[i] in a;
        }
      }
    }
  }

  lemma SortedAround(a: seq<int>, k: int, b: seq<int>)
    ensures StrictlySorted(a + [k] + b) <==>
      && StrictlySorted(a)
      && StrictlySorted(b)
      && (forall x :: x in a ==> x < k)
      && (forall x :: x in b ==> k < x)
  {
    if StrictlySorted(a + [k] + b) {
      SortedSplit(a, k, b);
    }
    if && StrictlySorted(a) && StrictlySorted(b)
       && (forall x :: x in a ==> x < k) && (forall x :: x in b ==> k < x) {
      SortedJoin(a, k, b);
    }
  }

  /** Search-tree ordering holds exactly when the in-order traversal is
      strictly increasing. */
  lemma {:induction false} SearchTreeIffSorted(t: Tree)
    ensures SearchTree(t) <==> StrictlySorted(Inorder(t))
  {
    if t.Node? {
      SearchTreeIffSorted(t.left);
      SearchTreeIffSorted(t.right);
      InorderKeys(t.left);
      InorderKeys(t.right);
      SortedAround(Inorder(t.left), t.entry, Inorder(t.right));
    }
  }

  /** Two strictly increasing sequences with the same elements are equal. */
  lemma {:induction false} SortedUnique(a: seq<int>, b: seq<int>)
    requires StrictlySorted(a) && StrictlySorted(b)
    requires forall x :: x in a <==> x in b
    ensures a == b
    decreases |a|
  {
    assert a != [] ==> a[0] in a;
    assert b != [] ==> b[0] in b;
    if a != [] && b != [] {
      assert a[0] == b[0] by {
        assert a[0] in b && b[0] in a;
      }
      forall x ensures x in a[1..] <==> x in b[1..] {
        if x in a[1..] {
          assert x in b && x != b[0];
        }
        if x in b[1..] {
          assert x in a && x != a[0];
        }
      }
      SortedUnique(a[1..], b[1..]);
      assert a == [a[0]] + a[1..] && b == [b[0]] + b[1..];
    }
  }

  /** A search tree has as many nodes as keys. */
  lemma {:induction false} LenIsKeyCount(t: Tree)
    requires SearchTree(t)
    ensures Len(t) == |Keys(t)|
  {
    if t.Node? {
      LenIsKeyCount(t.left);
      LenIsKeyCount(t.right);
      forall x | x in Keys(t.left) ensures x !in Keys(t.right) {
        assert x < t.entry;
      }
      assert Keys(t.left) !! Keys(t.right);
      assert t.entry !in Keys(t.left) + Keys(t.right);
    }
  }

  /** `is_leaf`: both children are the sentinel. */
  function IsLeaf(t: Tree): (b: bool)
    requires t.Node?
    ensures b <==> Len(t) == 1
  {
    !(t.left.Node? || t.right.Node?)
  }

  /** `max` reached through the right spine. */
  function MaxKey(t: Tree): (m: int)
    requires t.Node?
    ensures m in Keys(t)
    ensures SearchTree(t) ==> forall x :: x in Keys(t) ==> x <= m
  {
    if t.right.Empty? then t.entry else MaxKey(t.right)
  }

  /** `min` reached through the left spine. */
  function MinKey(t: Tree): (m: int)
    requires t.Node?
    ensures m in Keys(t)
    ensures SearchTree(t) ==> forall x :: x in Keys(t) ==> m <= x
  {
    if t.left.Empty? then t.entry else MinKey(t.left)
  }

  /** `max` as the source writes it: a loop down the right spine. */
  method MaxLoop(t: Tree) returns (m: int)
    requires t.Node?
    ensures m == MaxKey(t)
    ensures SearchTree(t) ==> m in Keys(t) && forall x :: x in Keys(t) ==> x <= m
  {
    m := t.entry;
    var node := t.right;
    while node.Node?
      invariant MaxKey(t) == (if node.Node? then MaxKey(node) else m)
      decreases node
    {
      m := node.entry;
      node := node.right;
    }
  }

  /** `min` as the source writes it: a loop down the left spine. */
  method MinLoop(t: Tree) returns (m: int)
    requires t.Node?
    ensures m == MinKey(t)
    ensures SearchTree(t) ==> m in Keys(t) && forall x :: x in Keys(t) ==> m <= x
  {
    m := t.entry;
    var node := t.left;
    while node.Node?
      invariant MinKey(t) == (if node.Node? then MinKey(node) else m)
      decreases node
    {
      m := node.entry;
      node := node.left;
    }
  }

  /** Node equality as intended: same entry, recursively equal children,
      cached heights not compared; a node never equals the sentinel. */
  function SameEntries(a: Tree, b: Tree): bool {
    match a
    case Empty => b.Empty?
    case Node(k, l, r, _) =>
      b.Node? && k == b.entry && SameEntries(l, b.left) && SameEntries(r, b.right)
  }

  /** On trees whose cached heights are right, comparing entries and
      children is the same as comparing the whole datatype values. */
  lemma {:induction false} SameEntriesIsEquality(a: Tree, b: Tree)
    requires HeightsOk(a) && HeightsOk(b)
    ensures SameEntries(a, b) <==> a == b
  {
    if a.Node? && b.Node? {
      SameEntriesIsEquality(a.left, b.left);
      SameEntriesIsEquality(a.right, b.right);
    }
  }

  /** Node equality as written: `EmptyBSTNode.__eq__` answers whether the
      other side is a sentinel, but a node's `__eq__` reads `other.entry`
      first, which the sentinel lacks, so comparing a node with the sentinel
      raises instead of answering false. */
  function NodeEqAsWritten(a: Tree, b: Tree): (r: Result<bool>)
    ensures r.Ok? ==> r.value == SameEntries(a, b)
    ensures r.Err? ==> r.error == MissingAttribute
    ensures SameEntries(a, b) ==> r == Ok(true)
  {
    match a
    case Empty => Ok(b.Empty?)
    case Node(k, l, rt, _) =>
      if b.Empty? then Err(MissingAttribute)
      else if k != b.entry then Ok(false)
      else
        match NodeEqAsWritten(l, b.left)
        case Err(e) => Err(e)
        case Ok(same) => if !same then Ok(false) else NodeEqAsWritten(rt, b.right)
  }
}
