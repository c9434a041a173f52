/** The four traversal orders of the tree facades (`_preorder`, `_inorder`,
    `_postorder`, `_bfs`) and the order switch `traverse`. The source's lazy
    generators become functions returning the whole sequence. */
module Traversal {
  import opened Trees

  /** Node, left subtree, right subtree. */
  function Preorder(t: Tree): (s: seq<int>)
    ensures |s| == Len(t)
  {
    if t.Empty? then [] else [t.entry] + Preorder(t.left) + Preorder(t.right)
  }

  /** The pre-order traversal lists the same entries as the in-order one. */
  lemma {:induction false} PreorderBag(t: Tree)
    ensures multiset(Preorder(t)) == multiset(Inorder(t))
  {
    if t.Node? {
      PreorderBag(t.left);
      PreorderBag(t.right);
    }
  }

  /** Left subtree, right subtree, node. */
  function Postorder(t: Tree): (s: seq<int>)
    ensures |s| == Len(t)
  {
    if t.Empty? then [] else Postorder(t.left) + Postorder(t.right) + [t.entry]
  }

  /** The post-order traversal lists the same entries as the in-order one. */
  lemma {:induction false} PostorderBag(t: Tree)
    ensures multiset(Postorder(t)) == multiset(Inorder(t))
  {
    if t.Node? {
      PostorderBag(t.left);
      PostorderBag(t.right);
    }
  }

  /** Total node count of the queued subtrees. */
  function QueueSize(q: seq<Tree>): nat {
    if q == [] then 0 else Len(q[0]) + QueueSize(q[1..])
  }

  /** All entries of the queued subtrees. */
  function QueueBag(q: seq<Tree>): multiset<int> {
    if q == [] then multiset{} else multiset(Inorder(q[0])) + QueueBag(q[1..])
  }

  lemma {:induction false} QueueAppend(a: seq<Tree>, b: seq<Tree>)
    ensures QueueSize(a + b) == QueueSize(a) + QueueSize(b)
    ensures QueueBag(a + b) == QueueBag(a) + QueueBag(b)
    decreases |a|
  {
    if a != [] {
      assert (a + b)[0] == a[0] && (a + b)[1..] == a[1..] + b;
      QueueAppend(a[1..], b);
      assert QueueSize(a + b) == Len(a[0]) + QueueSize(a[1..] + b);
      assert QueueBag(a + b) == multiset(Inorder(a[0])) + QueueBag(a[1..] + b);
    } else {
      assert a + b == b;
    }
  }

  /** The queue holding just the two children of a node. */
  lemma Children(t: Tree)
    requires t.Node?
    ensures QueueSize([t.left, t.right]) == Len(t) - 1
    ensures QueueBag([t.left, t.right]) + multiset{t.entry} == multiset(Inorder(t))
  {
    var one, two := [t.right], [t.left, t.right];
    assert one[0] == t.right && one[1..] == [];
    assert two[0] == t.left && two[1..] == one;
    assert QueueSize(one) == Len(t.right) && QueueBag(one) == multiset(Inorder(t.right));
    assert QueueSize(two) == Len(t.left) + Len(t.right);
    assert QueueBag(two) == multiset(Inorder(t.left)) + multiset(Inorder(t.right));
    assert multiset(Inorder(t)) == multiset(Inorder(t.left)) + multiset{t.entry} + multiset(Inorder(t.right));
  }

  /** Popping a node and enqueueing its two children removes exactly that
      node from the queued subtrees. */
  lemma PopNode(q: seq<Tree>)
    requires q != [] && q[0].Node?
    ensures QueueSize(q[1..] + [q[0].left, q[0].right]) == QueueSize(q) - 1
    ensures QueueBag(q[1..] + [q[0].left, q[0].right]) + multiset{q[0].entry} == QueueBag(q)
  {
    QueueAppend(q[1..], [q[0].left, q[0].right]);
    Children(q[0]);
  }

  /** The loop of `_bfs`: pop the front of the queue; skip the sentinel;
      otherwise yield the entry and enqueue both children. Each step either
      removes a node from the queued subtrees or shortens the queue. */
  function BfsQueue(q: seq<Tree>): seq<int>
    decreases QueueSize(q), |q|
  {
    if q == [] then []
    else if q[0].Empty? then BfsQueue(q[1..])
    else
      PopNode(q);
      [q[0].entry] + BfsQueue(q[1..] + [q[0].left, q[0].right])
  }

  /** The breadth-first loop yields every entry of the queued subtrees once. */
  lemma {:induction false} BfsQueueBag(q: seq<Tree>)
    ensures multiset(BfsQueue(q)) == QueueBag(q)
    decreases QueueSize(q), |q|
  {
    if q == [] {
    } else if q[0].Empty? {
      BfsQueueBag(q[1..]);
    } else {
      PopNode(q);
      BfsQueueBag(q[1..] + [q[0].left, q[0].right]);
    }
  }

  /** `_bfs`: nothing for the sentinel, else the queue loop seeded with the
      root. */
  function Bfs(t: Tree): (s: seq<int>)
    ensures |s| == Len(t)
    ensures multiset(s) == multiset(Inorder(t))
  {
    InorderLength(t);
    BfsQueueBag([t]);
    assert QueueBag([t]) == multiset(Inorder(t));
    if t.Empty? then [] else BfsQueue([t])
  }

  /** The `order` argument of `traverse`. */
  datatype Order = PreorderOrder | InorderOrder | PostorderOrder | BfsOrder

  /** The string switch of `traverse`: any string other than "preorder",
      "postorder" and "bfs" selects the in-order traversal. */
  function ParseOrder(order: string): (o: Order)
    ensures o == PreorderOrder <==> order == "preorder"
    ensures o == PostorderOrder <==> order == "postorder"
    ensures o == BfsOrder <==> order == "bfs"
  {
    if order == "preorder" then PreorderOrder
    else if order == "postorder" then PostorderOrder
    else if order == "bfs" then BfsOrder
    else InorderOrder
  }

  /** `traverse(order)`: every order lists each node once and yields the same
      entries as the in-order traversal, which on a search tree is the
      strictly increasing list of the keys. */
  function Traverse(t: Tree, order: string): (s: seq<int>)
    ensures |s| == Len(t)
    ensures multiset(s) == multiset(Inorder(t))
    ensures ParseOrder(order) == InorderOrder ==> s == Inorder(t)
  {
    InorderLength(t);
    PreorderBag(t);
    PostorderBag(t);
    match ParseOrder(order)
    case PreorderOrder => Preorder(t)
    case PostorderOrder => Postorder(t)
    case BfsOrder => Bfs(t)
    case InorderOrder => Inorder(t)
  }

  /** The in-order traversal of a search tree is strictly increasing and
      lists exactly its keys; every other order is a rearrangement of it. */
  lemma TraverseSearchTree(t: Tree, order: string)
    requires SearchTree(t)
    ensures StrictlySorted(Traverse(t, "inorder"))
    ensures forall x :: x in Traverse(t, order) <==> x in Keys(t)
  {
    SearchTreeIffSorted(t);
    InorderKeys(t);
    var s := Traverse(t, order);
    forall x ensures x in s <==> x in Keys(t) {
      assert x in s <==> x in multiset(s);
      assert x in Inorder(t) <==> x in multiset(Inorder(t));
    }
  }
}
