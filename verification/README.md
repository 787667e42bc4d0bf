# AVL tree of integer keys

A model of a C AVL tree library (`avl.c`). The tree stores a multiset of `int`
keys in a height-balanced binary search tree. Every node caches the height of
its subtree, with an absent subtree counting as -1. Insertion and removal
recurse down the tree and hand back the new root of each subtree they touch,
rebalancing every node on the way back up with at most two rotations. A
removed node with two children takes the smallest key of its right subtree,
which is then removed from there. Lookup and the minimum search walk the tree
with loops. Tearing the tree down removes the root's key until nothing is
left.

The model has six modules:

- `AvlNode` (avl_node.dfy): the node datatype and the height helpers. It also
  defines the four invariants: the height cache is right (`HeightsCorrect`),
  every balance factor is in [-1, 1] (`Balanced`), the keys are ordered
  (`Ordered`), and the contents are a multiset (`Elements`). These come with
  the facts that link them: ordering is the same as a sorted in-order walk,
  and an AVL subtree of height h holds at least as many keys as a
  Fibonacci-like sequence (`MinSize`) gives, so its height is logarithmic in
  its size.
- `AvlBalance` (avl_balance.dfy): the two rotations and the rebalance step.
  The rebalance step is shown to restore the AVL invariant in all four cases.
  It is also shown that a single rotation cannot replace the double one.
- `AvlInsert` and `AvlRemove` (avl_insert.dfy, avl_remove.dfy): the recursive
  subtree operations as functions from a subtree to its new root. The
  leftmost-key search appears twice. `SubtreeMinVal` is the loop of
  `_avl_subtree_min_val`. The recursive function `MinVal` is what removal
  calls, because a function cannot call a method. The loop is proved to
  return `MinVal`'s result.
- `AvlTree` (avl_tree.dfy): the tree handle `struct avl` as the class `Avl`,
  whose field `root` the operations reassign. The search and teardown loops
  are methods on it.
- `TestAvl` (test_avl.dfy): the driver's scenario. It inserts 0 .. 15 into a
  new tree and then finds every one of them.

The ordering invariant is the weak one: left keys ≤ node key ≤ right keys.
Insertion sends a key equal to the node's to the right, but a rotation can
then carry an equal key into a left subtree. So "left keys are strictly
smaller" does not survive insertion of duplicates. The model follows the code
here, not that stricter reading. Lookup is still exact under the weak
ordering (`AvlTree.Avl.Contains`).

The doc comment above `_avl_rotate_right` (avl.c:102-106) says the rotation is
centred on the right child. The code rotates around the left child, and the
model follows the code.

## Model

| member | source | states |
|---|---|---|
| AvlNode.CachedHeightIsTrue | avl.c:58-63 | the contract of `GetHeight`, which models the helper: -1 for an absent subtree and the cached field otherwise, and when every cached height is right this is the subtree's true height |
| AvlNode.NodeCreate | avl.c:41-51 | a fresh node holds exactly the one key, is ordered and AVL, and has height 0 |
| AvlNode.UpdateHeight | avl.c:65-80 | only the node's height changes; with correct children it becomes one more than the taller child's true height |
| AvlNode.BalanceFactor | avl.c:121-130 | with correct children, the result is the right subtree's true height minus the left's |
| AvlNode.OrderedIffSorted | avl.c:183-204 | the weak ordering invariant holds exactly when the in-order walk is non-decreasing (both directions) |
| AvlNode.AvlMinSize | avl.c:121-165 | under the balance the rebalance step keeps, an AVL subtree of height h holds at least MinSize(h) keys, with MinSize(h) = MinSize(h-1) + MinSize(h-2) + 1 |
| AvlNode.AvlHeightIsLogarithmic | avl.c:121-130 | an AVL subtree of height h holds at least 2^k - 1 keys whenever 2k <= h + 1 |
| AvlBalance.RotateLeft | avl.c:83-99 | needs the right child; keeps the in-order sequence and the multiset of keys; leaves every cached height on the new root right when the three moved subtrees had right heights |
| AvlBalance.RotateRight | avl.c:102-118 | the mirror image around the left child: same in-order sequence and keys, correct heights |
| AvlBalance.Balance | avl.c:133-165 | keeps the in-order sequence and keys and makes the root's height right; a node with balance factor in [-1, 1] keeps its key and children |
| AvlBalance.LeftRightCase | avl.c:136-145 | left-heavy node with right-heavy left child: the double rotation yields an AVL subtree as tall as the old left subtree |
| AvlBalance.LeftLeftCase | avl.c:136-145 | left-heavy node with left child not right-heavy: one right rotation yields an AVL subtree of the left subtree's height or one more |
| AvlBalance.RightLeftCase | avl.c:147-156 | mirror of LeftRightCase for a right-heavy node whose right child is left-heavy |
| AvlBalance.RightRightCase | avl.c:147-156 | mirror of LeftLeftCase for a right-heavy node |
| AvlBalance.BalanceRestoresAvl | avl.c:133-165 | AVL children differing in height by at most 2 give an AVL result; its height is that of the taller child or one more, and exactly one more when the node was balanced |
| AvlBalance.BalanceOfAvlIsIdentity | avl.c:158-163 | rebalancing a node that is already AVL returns it unchanged |
| AvlBalance.SingleRotationFailsLeftRight | avl.c:142-145 | without the preliminary left rotation, a left-heavy node with a right-heavy left child stays unbalanced after one right rotation |
| AvlBalance.SingleRotationFailsRightLeft | avl.c:153-156 | mirror image for the right-heavy case |
| AvlInsert.SubtreeInsert | avl.c:168-214 | the result is a non-empty subtree with correct heights, holds exactly one more copy of val, and keeps the ordering |
| AvlInsert.InsertPreservesAvl | avl.c:168-214 | insertion into an AVL subtree gives an AVL subtree whose height grew by 0 or 1 |
| AvlRemove.MinVal | avl.c:230-242 | the leftmost key is a key of the subtree, and under the ordering no key is smaller |
| AvlRemove.SubtreeMinVal | avl.c:230-242 | the loop following left children returns the leftmost key, which is the subtree's minimum under the ordering |
| AvlRemove.SubtreeRemove | avl.c:245-343 | the height cache stays right; on an ordered subtree the result is ordered and holds exactly one fewer copy of val (none removed when val is absent) |
| AvlRemove.ReplacedBySuccessor | avl.c:293-304 | copying the right subtree's minimum into a two-child node and removing it from the right subtree removes exactly the node's key and keeps the order |
| AvlRemove.OneChildIsLeaf | avl.c:306-328 | in an AVL node with one child, that child is a leaf, so returning it unbalanced is safe |
| AvlRemove.RemovePreservesAvl | avl.c:245-343 | removal from an AVL subtree gives an AVL subtree whose height dropped by 0 or 1 |
| AvlRemove.RemoveAbsentIsIdentity | avl.c:256-262 | removing a key that does not occur returns the AVL subtree unchanged |
| AvlTree.Avl.constructor | avl.c:19-24 | a new tree has no root, no keys, and satisfies the invariant |
| AvlTree.Avl.IsEmpty | avl.c:35-38 | true exactly when the root is absent, which is exactly when the tree holds no keys |
| AvlTree.Avl.Insert | avl.c:217-227 | the root becomes the subtree insertion's result; the invariant holds; one copy of val is added; the height grows by at most one |
| AvlTree.Avl.Remove | avl.c:346-356 | the root becomes the subtree removal's result; the invariant holds; one copy of val is taken out; an absent val leaves the root as it was; the height drops by at most one |
| AvlTree.Avl.Contains | avl.c:359-398 | the search loop terminates and answers true exactly when val is in the tree |
| AvlTree.SearchLeft | avl.c:372-378 | a key below the node's key is in the node's subtree exactly when it is in the left subtree |
| AvlTree.SearchRight | avl.c:380-386 | a key above the node's key is in the node's subtree exactly when it is in the right subtree |
| AvlTree.Avl.Free | avl.c:27-32 | the removal loop terminates, since each round removes the root's own key, and leaves the tree empty and valid |
| TestAvl.InsertThenContains | test_avl.c:8-20 | inserting 0 .. count - 1 into a new tree yields exactly those keys, and every lookup of them succeeds |
| TestAvl.Driver | test_avl.c:8-24 | the sixteen-key run holds exactly 0 .. 15 in a tree of height at most 4 |
| TestAvl.SixteenKeysHeight | test_avl.c:6 | an AVL tree of at most sixteen keys has height at most 4, since height 5 needs MinSize(5) = 20 keys |

## Left out

- Printing (`_avl_subtree_print`, `avl_print`, and the final call in the driver) only writes to standard output, so it is not modelled.
- The model does not cover memory management. This means `malloc`, `free`, the allocation checks, and the fact that `avl_free` does not release the `struct avl` itself. A removed node is simply no longer part of the tree value.
- Nodes are values, not heap cells. The model does not capture updates in place or node identity: which node object ends up where after a rotation, or the two-child case overwriting a live node's key. Only the resulting tree shapes, keys and heights are modelled. No node is shared between two trees, which the C code also never does.
- C `int` overflow is not modelled: keys and heights are unbounded integers. Keys are only compared. Heights stay small. `AvlNode.AvlHeightIsLogarithmic` proves a height of at most about 2·log2 of the size. `AvlNode.AvlMinSize` proves that the size grows at least like the Fibonacci numbers in the height. The closed form of that bound, about 1.44·log2, is not itself proved.
- AvlRemove.SubtreeRemove: the statement about the contents assumes an ordered subtree. On a subtree that breaks the ordering, the search can miss a key that is present, and the model promises only the height cache there.
- AvlTree.Avl.Contains: its exact answer is stated for a tree that keeps the class invariant, because the search relies on the ordering.
