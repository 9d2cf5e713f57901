# AVL tree over a node arena

This project models `avl.py`. That file is a self-balancing binary search tree (an AVL tree) whose nodes live in one growable list. Each record holds:

- a value;
- a parent, left-child and right-child link, each an index into the same list (or none);
- a cached height: the height of the subtree rooted at that node, where a leaf has height 0.

`SearchTree` supports the following operations:

- `insert` appends a leaf under the node where a search for the value stopped.
- It then recomputes the cached heights of the leaf's ancestors.
- It then walks from the leaf back to the root. Every node it finds with a balance factor of ±2 is rebalanced by a single or a double rotation.
- A value already stored is ignored.
- `contains` and `get_node` search from the root.
- `is_empty` tests for a root.

`SearchTreeIter` is a cursor over the list. It starts at the leftmost node. Each `next` yields one value and moves to the in-order successor:

- if the node has a right subtree, the successor is that subtree's leftmost node;
- otherwise it is the first ancestor reached from a left child.

## How the model is built

The model is imperative, like the source.

`AvlTree.SearchTree` is a class with these fields:

- `nodes: seq<Node>`, the arena;
- `root: Option<nat>`;
- a ghost field `shape`, which is the algebraic tree the arena stores.

`Arena.Repr` ties the arena to the tree:

- every node of `shape` sits at its handle with its value, parent and children;
- the handles are exactly `0 .. |nodes|-1`, each used once;
- the values are in search-tree order;
- every cached height is the height of its subtree.

`SearchTree.Valid` adds the AVL balance condition to `Repr`.

Every method that changes the arena is specified against a pure reference definition on the algebraic tree, in module `Balance`:

- `RotL` and `RotR` for the rotations;
- `Rebal` for the rebalancing step;
- `AvlInsert` for insertion.

Every property of those definitions is proved once, as lemmas: AVL balance, the in-order sequence, the stored values, search order and the height bounds. Insertion is proved to produce exactly `AvlInsert` of the old tree, so those lemmas carry over to the arena.

The record writes of each rotation appear twice, on purpose:

- once as the body of the method that performs them (`RotateLeftLinks`, `RotateRightLinks`);
- once as a function on the arena (`Surgery.LeftRelinked`, `Surgery.RightRelinked`).

The method is proved equal to the function. Lemmas about the function then describe, record by record, what the writes do, without going through the method's state.

A position inside a tree is described by a zipper (`Shape.Path`): the list of frames from a node up to the root. `Plug` puts a subtree back into that context.

The modules are:

- `Shape`: trees, zippers, and the functions and predicates about them.
- `Balance`: the reference rotations, rebalancing and insertion, and the AVL lemmas.
- `Arena`: node records, and the predicates tying an arena to a tree.
- `Surgery`: the record writes of the two rotations, as functions on the arena.
- `Relink`: what those writes do to a stored tree.
- `AvlTree`: the class `SearchTree`.
- `AvlIter`: the class `SearchTreeIter`.
- `ScenarioTrees` and `AvlScenario`: the scenario of `test_avl.py`.

## Model

| member | source | states |
|---|---|---|
| AvlTree.SearchTree.constructor | avl.py:14-19 | A new tree has no nodes and no root, stores no value, and is valid. |
| AvlTree.SearchTree.IsEmpty | avl.py:21-23 | The tree has no root exactly when it stores no value, and exactly when it has no nodes. |
| AvlTree.SearchTree.Contains | avl.py:25-29 | The result is true exactly when the value is stored in the tree. Nothing changes. |
| AvlTree.SearchTree.GetNode | avl.py:46-65 | The result is None exactly for an empty tree. If a node holds the value, the result is that node's handle. Otherwise the result is the last node visited, and its child slot on the value's side (left if smaller, right if greater) is empty. That node holds the value's in-order neighbour on the side of that slot: the least stored value above the value for a left slot, the greatest below it for a right slot. |
| Shape.NeighbourAtHole | avl.py:63-65 | Where a search for an absent value stops at an empty slot, the node above the slot holds the value's nearest stored neighbour on the slot's side. |
| Arena.Attach | avl.py:74-77 | Pointing the search-end node's child slot at the new handle leaves the arena's length, and every record's value and parent, unchanged. Every other record is untouched. |
| AvlTree.SearchTree.CreateNode | avl.py:67-85 | For a value already stored, the result is None and the arena is unchanged. Otherwise the search-end node's child slot on the value's side names the next free handle, and the result is a leaf record under that node with height 0. |
| AvlTree.SearchTree.Insert | avl.py:31-44 | Inserting a stored value changes nothing. Inserting a new value grows the arena by exactly one, with a record holding the value at the old length. The root becomes 0 when the tree was empty. No other stored value changes handle. The stored set becomes the old set plus the value. The tree afterwards is exactly the AVL insertion of the value into the old tree: still a valid, balanced search tree with correct cached heights. |
| AvlTree.SearchTree.Retrace | avl.py:40-44 | The walk from the new leaf up to the root, rebalancing each node that fails is_balanced, completes the AVL insertion. Handles and values are kept. |
| AvlTree.SearchTree.UpdateHeights | avl.py:87-102 | Recomputing heights from a node's parent up to the root leaves every cached height correct. No link changes, and only records on the path to the root change. |
| Arena.ComputeHeight | avl.py:104-114 | The height compute_height gives is 1 + the larger child height, where a missing child counts -1; so a node without children gets 0. |
| Arena.ComputeHeightOk | avl.py:104-114 | When both children carry correct heights, compute_height of a node's children is the height of its subtree. That is 0 for a leaf and otherwise 1 + the larger child height. |
| Arena.BalanceFactor | avl.py:116-126 | The sign of the balance factor names the child whose height decides compute_height: the left child when it is at least 0, the right child when it is at most 0. |
| Arena.IsBalanced | avl.py:250-251 | is_balanced holds exactly when the balance factor lies between -1 and 1. |
| Arena.BalanceFactorOk | avl.py:116-126 | balance_factor of a stored node is its left subtree's height minus its right subtree's, a missing child counting -1. is_balanced holds exactly when that lies between -1 and 1. |
| Surgery.LeftRelinked | avl.py:143-172 | The record writes of a left rotation keep the arena's length and every stored value. |
| AvlTree.SearchTree.RotateLeftLinks | avl.py:143-172 | The arena after a left rotation's record writes is `Surgery.LeftRelinked` of the old arena. The root moves to the right child exactly when the rotated node had no parent. |
| Surgery.LeftRelinkedRecords | avl.py:143-172 | The left rotation's writes change, record by record, only these: the rotated node, its right child, the moved inner subtree's top, and the parent's child slot. All other records are unchanged. |
| AvlTree.SearchTree.LeftRotation | avl.py:128-173 | Without a right child, nothing changes. Otherwise the stored tree becomes `RotL` of the subtree at the node (which keeps the in-order sequence and values of the whole tree, by `Balance.RotationsKeepWhole`), with links and heights consistent. Only the rotated node, its right child, that child's left child and the records on the path to the root change. |
| Surgery.RightRelinked | avl.py:186-212 | The mirror image of LeftRelinked. |
| AvlTree.SearchTree.RotateRightLinks | avl.py:186-212 | The mirror image of RotateLeftLinks. |
| Surgery.RightRelinkedRecords | avl.py:186-212 | The mirror image of LeftRelinkedRecords. |
| AvlTree.SearchTree.RightRotation | avl.py:175-213 | The mirror image of LeftRotation, against `RotR`. |
| AvlTree.SearchTree.RightLeftRotation | avl.py:215-219 | Without a right child, nothing changes. Otherwise the stored tree becomes `RotRL` of the subtree at the node: a right rotation at the right child, then a left rotation at the node. |
| AvlTree.SearchTree.LeftRightRotation | avl.py:221-225 | The mirror image of RightLeftRotation, against `RotLR`. |
| AvlTree.SearchTree.Rebalance | avl.py:227-248 | A balance factor of -2 or 2 selects the source's single or double rotation; -1 to 1 changes nothing. Any other balance factor is the "invalid balance factor" failure: the result is false and nothing changes. |
| Relink.AllBalanced | avl.py:250-251 | In a stored AVL tree, every record's children are in range and every record passes is_balanced. |
| Balance.PendingBf | avl.py:245-248 | Before the rebalancing step at a node on the insertion path, the balance factor is within ±2, so the invalid-balance-factor failure cannot happen. The step completes the insertion at that node. |
| Balance.RotLKeeps | avl.py:128-173 | A left rotation keeps the in-order sequence, the values, the handles, handle distinctness and search order. |
| Balance.RotRKeeps | avl.py:175-213 | The mirror image of RotLKeeps. |
| Balance.RotRLKeeps | avl.py:215-219 | The right-left double rotation keeps the in-order sequence, the values, the handles, distinctness and search order. |
| Balance.RotLRKeeps | avl.py:221-225 | The mirror image of RotRLKeeps. |
| Balance.RebalKeeps | avl.py:227-243 | The rebalancing step keeps the in-order sequence, the values, the handles, distinctness and search order. |
| Balance.RotationsKeepWhole | avl.py:128-248 | A single or double rotation, or the rebalancing step, at any node keeps the in-order sequence and the values of the whole tree, not just of the rotated subtree. |
| Balance.RebalLowersTop | avl.py:171-172 | A rotating rebalancing step moves the old top down to become a child of the new top. |
| Balance.AvlInsertKeeps | avl.py:31-44 | Insertion of a value not yet stored adds exactly that value and exactly the new handle, and keeps distinctness and search order. |
| Balance.AvlInsertBalanced | avl.py:31-44 | Insertion into an AVL tree gives an AVL tree whose height grew by at most one. When it grew, a non-empty tree leans to one side. |
| Balance.RightHeavyFix | avl.py:229-235 | A node two levels heavier on the right is balanced by its rebalancing step, when the right child leans. |
| Balance.LeftHeavyFix | avl.py:237-243 | The mirror image of RightHeavyFix. |
| Balance.WalkDone | avl.py:41-44 | When the rebalancing walk leaves the root, the tree is the AVL insertion of the value. |
| Balance.WalkRebalance | avl.py:42-43 | A node on the walk that fails is_balanced has balance factor ±2. Rebalancing it completes the insertion at that node. |
| Shape.InOrderSorted | avl.py:254-296 | The in-order sequence of a search tree is strictly increasing, and it holds exactly the tree's values. |
| AvlIter.SearchTreeIter.GetLeftmost | avl.py:259-267 | The result is None exactly for an empty subtree. Otherwise it is the node reached by following left children, which has no left child, and whose value is the first of the subtree's in-order sequence. |
| AvlIter.SearchTreeIter.constructor | avl.py:254-257 | A new iterator has the whole in-order sequence still to yield: every stored value once, in strictly ascending order. |
| AvlIter.SearchTreeIter.Next | avl.py:272-296 | An exhausted iterator yields None (the source's StopIteration). Otherwise it yields the first value still to come, and the values still to come lose exactly that first value. |
| AvlScenario.Drain | test_avl.py:34-35 | Draining an iterator started at the root yields the in-order sequence of the stored tree. |
| AvlScenario.InsertNew | test_avl.py:22-26 | After each insertion every node passes is_balanced. |
| ScenarioTrees.Sixth | test_avl.py:36-37 | Inserting 7 after 20, 11, 25, 12 and 8 rotates right at the root. |
| AvlScenario.InsertScenario | test_avl.py:19-37 | Inserting 20, 11, 25, 12 and 8 into an empty tree leaves it non-empty, with root 0. Each value sits at the handle of its insertion order, and every value is found. Iteration yields 8, 11, 12, 20, 25. Inserting 7 afterwards leaves node 4 (holding 8) at height 1. |

## Left out

- Node construction (avl.py:6-10): the trailing commas make every field a one-element tuple. The model stores the plain values, which is what the rest of the code evidently expects.
- AvlTree.SearchTree.UpdateHeights: the guard `self.nodes.is_empty()` (avl.py:88) calls a method that a list does not have. The model treats the guard as "the arena is non-empty", which always holds where the method is called.
- The tests call `tree.iter()` (test_avl.py:35, 53), which does not exist. The model starts an iterator on the tree's nodes and root instead (`AvlScenario.Drain`).
- Values are `int`. The source compares arbitrary Python objects with `<`, `>` and `==`.
- AvlTree.SearchTree.Rebalance: the exception raised for a balance factor beyond ±2 (avl.py:245-248) becomes a `false` result, and its message text is not modelled. `Balance.PendingBf` shows that this case cannot arise during an insertion.
- AvlTree.SearchTree.Insert: the walk loop of avl.py:40-44 lives in a separate method, `Retrace`. The rotations read the records they write once, before writing them (`RotateLeftLinks`, `RotateRightLinks`); the writes and their order are those of the source.
- AvlIter.SearchTreeIter: the iterator keeps the arena as a value, not a reference to the tree's list. Inserting into a tree while one of its iterators is in use is not modelled.
- AvlIter.SearchTreeIter.constructor: only an iterator started at the root of a whole stored tree is modelled. The source accepts any node as the start (avl.py:255-261); from a node other than the root, its climb runs on past that node's subtree.
- `__iter__` and `StopIteration` (avl.py:269-274): `Next` returns an `Option`, where None means the iteration is over.
- The `__main__` block (avl.py:299-301): it is broken and only prints.
- The unittest runner and the random test (test_avl.py:39-58): `Insert`, `Relink.AllBalanced` and the iterator's contracts state the random test's checks for every input.
