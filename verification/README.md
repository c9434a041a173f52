# py-bstrees in Dafny

A Dafny model of the ordered-set trees of py-bstrees.

The library has two trees. `BinarySearchTree` is a plain binary search tree. `AVLTree` is a height-balanced binary search tree. Both are built from the same kind of node: an entry, two children and a cached height. A missing child is an "empty node" sentinel instead of `None`. Every structural operation of a tree is delegated to its root node. The node recurses into its children and returns the root of the updated subtree, and the tree stores whatever comes back.

The model replaces mutation with values:

- `Trees.Tree` is the node. `Empty` is the sentinel and `Node(entry, left, right, height)` is a node with its cached height.
- Every node operation is a pure function from the old subtree to the new one.
- Python's `KeyError` and `AttributeError` become the `Err` case of `Results.Result`.
- Entries are mathematical integers. The source works with any mutually comparable Python values.

Modules, one per component:

- `Results`: the error values, `Option` and `Result`.
- `Trees`: the node datatype, its abstractions and the search-tree and cached-height invariants, plus the shared node helpers. The abstractions are the key set, the in-order sequence and the node count. The helpers are `is_leaf`, `max`, `min` and node equality.
- `Bst`: the plain node (`AbstractBSTreeNode` in pybstree.py and `BSTNode` in pybstrees.py). It covers insert, delete, the iterative search, and the predecessor and successor walks.
- `Avl`: the AVL node (`_AVLNode`). It covers the balance factor, the four rotations, the rebalancing step, and the balanced insert and delete.
- `Traversal`: the pre-order, in-order, post-order and breadth-first traversals and the `traverse(order)` switch.
- `Facade`: the tree classes `AbstractBinarySearchTree`/`BinarySearchTree` and `AVLTree` of pybstree.py. A variant tag stands for the class.
- `Legacy`: the older `BinarySearchTree` of pybstrees.py, related to the newer plain tree.
- `Examples`: concrete trees whose shapes and traversals the library's own expectations fix, and the counterexamples behind the findings below.

Every operation is paired with an independent description:

- Insert and delete are stated against the key set and the in-order sequence.
- Both tree kinds are proved to keep their invariants. For AVL trees these are the search-tree order, correct cached heights and a balance factor of -1, 0 or 1 at every node.
- The AVL operations are proved to store exactly what the plain ones store.
- Predecessor and successor are proved to return the nearest stored neighbours.
- Every traversal is proved to list each entry once. The in-order traversal of a search tree is proved strictly increasing.
- The corrected tree equality is proved to be structural equality.

## Model

| member | source | states |
|---|---|---|
| Trees.InorderKeys | pybstree.py:262-267 | the in-order traversal lists exactly the stored entries |
| Trees.InorderLength | pybstree.py:134-136 | the in-order traversal has as many elements as `len` counts nodes |
| Trees.SortedSplit | pybstree.py:262-267 | a strictly increasing in-order sequence around an entry splits into increasing halves below and above it |
| Trees.SortedJoin | pybstree.py:262-267 | increasing halves below and above an entry join into an increasing sequence |
| Trees.SearchTreeIffSorted | pybstree.py:262-267 | the search-tree ordering holds exactly when the in-order traversal is strictly increasing |
| Trees.SortedUnique | pybstree.py:262-267 | two strictly increasing sequences with the same elements are equal, so in-order traversals of search trees with equal key sets coincide |
| Trees.LenIsKeyCount | pybstree.py:134-136 | on a search tree `len` equals the number of distinct stored entries |
| Trees.IsLeaf | pybstree.py:104-106 | a node is a leaf exactly when its subtree holds one node |
| Trees.MaxKey | pybstree.py:108-116 | the entry reached down the right spine is stored, and on a search tree it is the largest |
| Trees.MinKey | pybstree.py:118-126 | the entry reached down the left spine is stored, and on a search tree it is the smallest |
| Trees.MaxLoop | pybstree.py:108-116 | the `max` loop ends with the right-spine entry, which is stored and on a search tree is the largest |
| Trees.MinLoop | pybstree.py:118-126 | the `min` loop ends with the left-spine entry, which is stored and on a search tree is the smallest |
| Trees.SameEntriesIsEquality | pybstree.py:138-140 | on trees with correct cached heights, comparing entries and children recursively is the same as equality of the whole trees |
| Trees.NodeEqAsWritten | pybstree.py:138-140 | node equality as written answers as the intended comparison would whenever it answers, answers true on every pair the intended comparison finds equal, and otherwise fails only with a missing attribute |
| Bst.Insert | pybstree.py:73-81 | insert returns a node whose key set is the old one plus the entry; it keeps the search-tree order and correct heights, and on a search tree it grows `len` by one exactly when the entry was absent |
| Bst.InsertPresentIsIdentity | pybstree.py:73-81 | inserting an entry that is already stored changes nothing, not even a cached height |
| Bst.Delete | pybstree.py:83-102 | deleting an absent entry raises `KeyError`; a successful delete keeps correct heights and removes one node |
| Bst.DeletePresent | pybstree.py:83-102 | deleting a stored entry from a search tree succeeds, removes exactly that entry and keeps the order |
| Bst.BelowRemovedMax | pybstree.py:93-96 | after the maximum of a search tree is removed, every remaining key is below it |
| Bst.Search | pybstree.py:151-163 | the iterative search returns a stored entry equal to the argument, or raises "Entry not found"; on a search tree it succeeds exactly when the entry is stored |
| Bst.Contains | pybstree.py:230-236 | membership answers true only for stored entries, and on a search tree exactly for them |
| Bst.Pred | pybstree.py:165-176 | the predecessor walk raises "Predecessor not found" for an entry that is not stored, and every failure it reports is that error |
| Bst.Succ | pybstree.py:178-189 | the successor walk raises "Successor not found" for an entry that is not stored, and every failure it reports is that error |
| Bst.PredWalk | pybstree.py:165-176 | for a stored entry the walk, started with a candidate below the subtree, returns the largest smaller key among the subtree and the candidate, and fails exactly when there is none |
| Bst.SuccWalk | pybstree.py:178-189 | the mirror image of `PredWalk` for the smallest greater key |
| Avl.RotateLeft | pybstree.py:518-527 | a left rotation keeps the in-order sequence, the key set and the search-tree order, and yields correct heights over children with correct heights |
| Avl.RotateRight | pybstree.py:529-538 | the mirror image of `RotateLeft` |
| Avl.RotateLeftRight | pybstree.py:540-543 | the double rotation keeps the in-order sequence, keys, order and correct heights |
| Avl.RotateRightLeft | pybstree.py:545-548 | the mirror image of `RotateLeftRight` |
| Avl.BalanceIfUnbalanced | pybstree.py:505-516 | the rebalancing step keeps the in-order sequence, keys, order and correct heights, and leaves a node with balance factor -1, 0 or 1 untouched |
| Avl.BalancedTree | pybstree.py:496-503 | refreshing the height and rebalancing a node keeps its in-order sequence, keys, order and correct heights |
| Avl.RebalanceRestores | pybstree.py:505-516 | over AVL children at most two levels apart, rebalancing yields an AVL-balanced node whose height is the taller child's height or one more, and exactly one more without rotation |
| Avl.BalancedTreeIsAvl | pybstree.py:496-516 | over AVL children separated by the entry and at most two levels apart, the rebalanced node is an AVL tree |
| Avl.RightRepairs | pybstree.py:529-538 | a single right rotation repairs a left-heavy node whose left child is not right-heavy |
| Avl.LeftRepairs | pybstree.py:518-527 | a single left rotation repairs a right-heavy node whose right child is not left-heavy |
| Avl.LeftRightRepairs | pybstree.py:540-543 | a left-right rotation repairs a left-heavy node whose left child is right-heavy, giving the left child's height |
| Avl.RightLeftRepairs | pybstree.py:545-548 | a right-left rotation repairs a right-heavy node whose right child is left-heavy, giving the right child's height |
| Avl.Insert | pybstree.py:416-423 | the balanced insert stores the old keys plus the entry, in the same in-order sequence as the plain insert |
| Avl.InsertKeepsAvl | pybstree.py:416-423 | insertion into an AVL tree yields an AVL tree whose height grew by at most one |
| Avl.InsertPresentIsIdentity | pybstree.py:416-423 | re-inserting a stored entry into an AVL tree returns the very same tree |
| Avl.Delete | pybstree.py:425-444 | deleting an absent entry raises `KeyError` |
| Avl.RightOfEmptyLeftIsLeaf | pybstree.py:439-442 | in an AVL tree a node with an empty left child has a single leaf on its right, so lifting that leaf's entry is correct |
| Avl.DeleteKeepsAvl | pybstree.py:425-444 | deleting a stored entry from an AVL tree succeeds, removes exactly that entry, keeps the AVL invariants and lowers the height by at most one |
| Avl.DeleteRightStep | pybstree.py:427-444 | deleting in the right subtree and rebalancing removes the entry from the whole AVL tree |
| Avl.DeleteLeftStep | pybstree.py:429-444 | deleting in the left subtree and rebalancing removes the entry from the whole AVL tree |
| Avl.ReplaceRemoves | pybstree.py:435-444 | rebuilding a node around its left subtree's maximum removes the node's own entry and keeps the AVL invariants |
| Avl.DeleteReplaceStep | pybstree.py:435-444 | the delete branch that replaces the entry by the left maximum removes exactly the entry |
| Avl.DeleteLiftStep | pybstree.py:439-444 | the delete branch that lifts the right child's entry removes exactly the entry |
| Avl.SameEffectAsPlain | pybstree.py:416-444 | on an AVL tree the balanced insert and delete store the same in-order sequence as the plain ones, and delete fails for the same entries |
| Traversal.Preorder | pybstree.py:269-274 | the pre-order traversal lists one element per node |
| Traversal.PreorderBag | pybstree.py:269-274 | the pre-order traversal lists the same entries as the in-order one |
| Traversal.Postorder | pybstree.py:276-281 | the post-order traversal lists one element per node |
| Traversal.PostorderBag | pybstree.py:276-281 | the post-order traversal lists the same entries as the in-order one |
| Traversal.QueueAppend | pybstree.py:288-301 | the subtrees queued in two parts hold the nodes and entries of both parts together |
| Traversal.Children | pybstree.py:297-301 | a node's two enqueued children hold all its nodes and entries except its own |
| Traversal.PopNode | pybstree.py:291-301 | popping a node and enqueueing its children removes exactly that node from the queued subtrees |
| Traversal.BfsQueueBag | pybstree.py:291-301 | the breadth-first loop yields every entry of the queued subtrees exactly once |
| Traversal.Bfs | pybstree.py:283-301 | the breadth-first traversal lists one element per node and the same entries as the in-order one |
| Traversal.ParseOrder | pybstree.py:253-260 | "preorder", "postorder" and "bfs" select their orders, and every other string selects in-order |
| Traversal.Traverse | pybstree.py:244-260 | every order lists each node once and the same entries as the in-order traversal, and an unknown order string gives the in-order traversal |
| Traversal.TraverseSearchTree | pybstree.py:244-267 | on a search tree the in-order traversal is strictly increasing, and every order lists exactly the stored keys |
| Facade.New | pybstree.py:303-305 | a new tree is empty and satisfies its class's invariants |
| Facade.Insert | pybstree.py:206-207 | `insert` adds the entry to the key set and keeps the class |
| Facade.InsertKeepsValid | pybstree.py:206-207 | insert keeps the class's invariants, and re-inserting a stored entry leaves the tree exactly as it was |
| Facade.Delete | pybstree.py:348-350 | `delete` of an absent entry raises `KeyError` and leaves the tree unchanged |
| Facade.DeleteKeepsValid | pybstree.py:348-350 | deleting a stored entry succeeds, removes exactly that entry and keeps the class's invariants |
| Facade.Search | pybstree.py:633-649 | `search` as its documentation promises and as `AVLTree.search` does it: it returns a stored entry equal to the argument or raises `KeyError` "Entry not found", also on an empty tree, and on a valid tree it succeeds exactly for stored entries |
| Facade.SearchAsWritten | pybstree.py:356-358 | `BinarySearchTree.search` asks the root, so on an empty plain tree it raises `AttributeError`; on every other tree it behaves as `Facade.Search` |
| Facade.Contains | pybstree.py:230-236 | `in` answers true only for stored entries, and on a valid tree exactly for them |
| Facade.Pred | pybstree.py:238-239 | `pred` of an entry that is not stored raises "Predecessor not found", the only error it raises |
| Facade.Succ | pybstree.py:241-242 | `succ` of an entry that is not stored raises "Successor not found", the only error it raises |
| Facade.PredSuccAreNeighbours | pybstree.py:238-242 | for a stored entry, `pred` returns the largest smaller key and fails with "Predecessor not found" exactly at the minimum; `succ` returns the smallest greater key and fails with "Successor not found" exactly at the maximum |
| Facade.MaxEntry | pybstree.py:340-342 | `max` raises `AttributeError` exactly on the empty tree; otherwise it returns a stored entry, on a valid tree one no smaller than any other |
| Facade.MinEntry | pybstree.py:344-346 | `min` raises `AttributeError` exactly on the empty tree; otherwise it returns a stored entry, on a valid tree one no larger than any other |
| Facade.Clear | pybstree.py:142-149 | `clear` as intended, and as the plain tree does it: an empty valid tree of the same class |
| Facade.ClearAsWritten | pybstree.py:677-679 | `clear` as written succeeds on every plain tree with the empty tree; on an AVL tree it raises `AttributeError` exactly when the tree is empty or some node has one child, and then leaves a tree holding no key it did not hold before |
| Avl.ClearAsWritten | pybstree.py:446-453 | the AVL node's `clear` answers the sentinel when it succeeds; when it raises, the slot keeps a node with the same entry, possibly with keys already removed |
| Avl.ClearFailsExactly | pybstree.py:446-453 | the AVL node's `clear` raises exactly on the AVL sentinel and on a subtree with a one-child node somewhere |
| Facade.SizeIsKeyCount | pybstree.py:212-214 | `len` of a tree counts its stored entries |
| Facade.Traverse | pybstree.py:244-260 | `traverse` lists `len` elements, exactly the stored entries, in strictly increasing order for the in-order traversal |
| Facade.FromSeq | pybstree.py:303-316 | the tree built from a sequence stores exactly the sequence's elements |
| Facade.FromSeqValid | pybstree.py:303-316 | the tree built from a sequence satisfies its class's invariants |
| Facade.FromSeqStep | pybstree.py:312-313 | building from one more element is one more insert |
| Facade.Build | pybstree.py:303-316 | the constructor's insert loop yields the tree built from the sequence, a valid tree storing exactly its elements |
| Facade.BuildFrom | pybstree.py:307-309 | copy-construction from a tree of the same class is the tree built by inserting the other tree's breadth-first traversal in order; it is valid and stores exactly the same keys |
| Facade.EqualsIsStructural | pybstree.py:326-331 | on valid trees the intended `==` holds exactly when the trees are the same value |
| Facade.EqualsAsWritten | pybstree.py:326-331 | `==` as written answers false without comparing nodes when the class, height or length differs, answers true on every pair the intended equality finds equal, and whenever it answers agrees with the intended equality |
| Legacy.Insert | pybstrees.py:58-66 | insert adds the entry and keeps the order and correct heights |
| Legacy.Delete | pybstrees.py:68-87 | delete of an absent entry raises and leaves the tree as it was |
| Legacy.Contains | pybstrees.py:151-171 | `in` answers true only for stored entries, and on a search tree exactly for them |
| Legacy.MaxEntry | pybstrees.py:235-237 | `max` raises `AttributeError` exactly on the empty tree; otherwise it returns a stored entry, on a search tree the largest |
| Legacy.MinEntry | pybstrees.py:239-241 | `min` raises `AttributeError` exactly on the empty tree; otherwise it returns a stored entry, on a search tree the smallest |
| Legacy.Traverse | pybstrees.py:173-230 | `traverse` lists each node once, and any string other than the three named orders gives the in-order traversal |
| Legacy.Build | pybstrees.py:129-139 | the constructor's insert loop yields a search tree with correct heights storing exactly the sequence's elements |
| Legacy.SameAsPlainFacade | pybstrees.py:58-87 | insert, delete and traverse compute what the newer plain tree computes on the same root |
| Examples.DuplicateInsertDropped | tests/test_bstree.py:70-79 | the trees built from 9, 10, 9 and from 9, 10 are the same: 9 with right child 10 and no left child |
| Examples.InsertShapeAndHeights | tests/test_bstree.py:82-110 | after each insert of 9, 4, 14, 17, 7 the tree has the shape and cached heights the library expects |
| Examples.SampleIsBuilt | tests/test_bstree.py:150-158 | inserting 20, 10, 25, 23, 29, 30 builds the tree the traversal examples walk |
| Examples.PreorderExample | tests/test_bstree.py:144-160 | the pre-order traversal the library expects of the tree built from 20, 10, 25, 23, 29, 30 |
| Examples.InorderExample | tests/test_bstree.py:144-160 | the in-order traversal the library expects of the same tree |
| Examples.PostorderExample | tests/test_bstree.py:144-160 | the post-order traversal the library expects of the same tree |
| Examples.BfsExample | tests/test_bstree.py:144-160 | the breadth-first traversal the library expects of the same tree |
| Examples.DeleteEntriesInARow | tests/test_bstree.py:243-276 | deleting 10, 5, 7, 20, 40, 30, 50 in a row from the tree built from 20, 10, 5, 7, 40, 30, 50 succeeds at each step with the shape the library expects, ending with the empty tree |
| Examples.DeleteMissingRaises | tests/test_bstree.py:230-240 | deleting 10 from the tree built from 1, 2, 3 or from the empty tree raises `KeyError` and leaves the tree as it was |
| Examples.AvlLeftRotation | pybstree.py:518-527 | inserting 1, 2, 3 into an AVL tree rotates left to root 2 |
| Examples.AvlLeftRightRotation | pybstree.py:540-543 | inserting 3, 1, 2 into an AVL tree rotates left-right to root 2 |
| Examples.AvlDeleteTakesRightEntry | pybstree.py:439-442 | deleting 1 from the AVL tree built from 1, 2 takes the right child's entry |
| Examples.AvlClearEmptyRaises | pybstree.py:677-679 | `clear` as written raises on the empty AVL tree |
| Examples.AvlClearPairRaises | pybstree.py:446-453 | `clear` as written raises on the AVL tree built from 1, 2 and leaves it as it was |
| Examples.AvlClearLosesEntry | pybstree.py:446-453 | `clear` as written raises on the AVL tree built from 2, 1, 3, 4 after entry 1 is gone; the intended `clear` empties it |
| Examples.EmptySearchRaises | pybstree.py:356-358 | `search` as written raises `AttributeError` on an empty plain tree, where the intended search raises `KeyError` |
| Examples.EqualityRaises | pybstree.py:138-140 | the trees built from 2, 1, 0, 3 and from 2, 1, 3, 4 have equal heights and lengths; `==` as written raises on them and the intended equality answers false |

## Left out

- `__str__`, `__repr__` and `__copy__`: string rendering and shallow copying compute nothing about the tree's contents.
- Generators: the traversals are lazy generators in the source and whole sequences in the model.
- The constructor's `TypeError` for an argument that is not iterable or whose entries are not comparable: the model's entries are integers and its sequences are finite.
- Entry types: the source accepts any mutually comparable values, and the model uses integers.
- `__bool__`: a node is truthy and the sentinel falsy, which the model reads as `Node?` and `Empty?`. The AVL node's `entry is not None` check is always true for integer entries.
- Two sentinels: pybstree.py:433 returns the plain tree's `EMPTY_NODE` where an AVL leaf is deleted. A later insert at that position builds a plain node that never rebalances, and rebalancing an ancestor then reads its missing `balance_factor`. Deleting the only entry of an `AVLTree` turns its whole root into the plain sentinel in the same way. The model has a single `Empty` and keeps rebalancing there. Equality differs too: the AVL sentinel's `__eq__` (pybstree.py:398-400) rejects the plain sentinel, so after `t = AVLTree([1, 2]); t.delete(2)` the source answers `t == AVLTree([1])` with false, where `Facade.EqualsAsWritten` answers true.
- Error messages: the two sentinels raise `KeyError` with different texts on delete. The model keeps one `DeleteMissing` error that carries the entry.
- `clear` on plain trees: the node version walks the subtree before answering the sentinel. `Facade.Clear` replaces the root with `Empty` directly, which is the same result for a plain tree; for an AVL tree it is the intended result, and `Facade.ClearAsWritten` models the AVL tree's raising walk (see Findings).
- Avl.ClearAsWritten: every empty child counts as the AVL sentinel, which has no `clear`. A child slot emptied by a delete holds the plain sentinel instead (pybstree.py:433), whose `clear` succeeds, so on a tree shaped by deletes the model can raise where the source does not. This follows from the single `Empty` of the model.
- `height` property: it is the cached root height, `Trees.Height`, and needs no separate member.
- Running time: logarithmic height and the cost of operations are not modelled.
- Bst.Pred: its own contract states only the failing case, and `Bst.PredWalk` states the answer for stored entries. The sentinel raises even when a candidate has been passed down to it, so the candidate is returned only by the node holding the entry. The model follows this code and not a reading in which the sentinel returns the candidate.
- Bst.Succ: the same split as `Bst.Pred`, with `Bst.SuccWalk` stating the answer for stored entries.

## Findings

| source | as written | input that shows it | evidently intended | confidence | as-written member | corrected member |
|---|---|---|---|---|---|---|
| pybstree.py:138-140 | node `__eq__` (and the AVL node's copy at pybstree.py:492-494) reads `other.entry` before comparing; when the other side is the empty sentinel this raises `AttributeError` | `BinarySearchTree([2, 1, 0, 3]) == BinarySearchTree([2, 1, 3, 4])`: both have height 3 and length 4, and the comparison reaches node 0 against an empty slot | `==` answers false for trees of different shape | not executed | Trees.NodeEqAsWritten | Facade.EqualsIsStructural |
| pybstree.py:446-453 | the AVL node's `clear` calls `clear` on both children of every node that is not a leaf, and `AVLTree.clear` (pybstree.py:677-679) calls it on the root; the AVL sentinel (pybstree.py:365-400) has no `clear` | `AVLTree().clear()` and `AVLTree([1, 2]).clear()` raise `AttributeError`; `AVLTree([2, 1, 3, 4]).clear()` raises after entry 1 has been removed, leaving a damaged tree | `clear` empties the tree, as it does for `BinarySearchTree` | not executed | Facade.ClearAsWritten | Facade.Clear |
| pybstree.py:356-358 | `search` asks the root node, and the plain sentinel (pybstree.py:27-60) has no `search` | `BinarySearchTree().search(5)` raises `AttributeError` | `KeyError`, as the documentation at pybstree.py:357 says and as `AVLTree.search` (pybstree.py:633-649) raises | not executed | Facade.SearchAsWritten | Facade.Search |
