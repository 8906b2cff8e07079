# hset::Set as a verified Dafny model

`hset::Set` (amic5.cpp) is an ordered set of unique keys stored in an AVL
tree. Every node holds a key, a cached height and pointers to its two
children and its parent. A separate sentinel node, `endElem`, serves as
the end iterator. The container keeps a node count `sz`.

- `insert` and `erase` descend recursively and rebalance every node on the
  way back up, using single and double rotations.
- `find` and `lower_bound` share one lower-bound search, `FindVal`.
- Iterators step through the keys in order with `NextNode` and `PrevNode`,
  which climb through parent links.

This model specialises `ValueType` to `int` ordered by `<`.

- **`AvlTree`** (`avl_tree.dfy`) holds the node storage and the invariants.
  - A subtree is `Leaf` (a null pointer) or `Node(left, key, height, right)`.
  - `Keys` and `InOrder` give a subtree's contents; `Depth` is its true
    height.
  - `Ordered`, `HeightsCached` and `Balanced` state the search-tree order,
    correct cached heights, and the AVL rule.
  - `Height` (a null child has height 0) and `BalFact` (right height minus
    left height) read the cached heights.
- **`Balance`** (`balance.dfy`) holds `HeightRecalc`, the two rotations,
  `BalanceNode` and `RemoveMin`. Each is a function from the old subtree
  to the one the source returns.
- **`Lookup`** (`lookup.dfy`) holds node positions and the read-only
  searches.
  - A node pointer is the node's path from the root. Its parent is the path
    one step shorter.
  - `Ptr = Nil | EndElem | At(path)` covers null, the sentinel and a node.
  - `Rank` is a position's index in the in-order sequence.
  - `FindMin`, `FindMax` and `FindVal` live here.
- **`Mutation`** (`mutation.dfy`) states what one call of the recursive
  insert or remove promises about the subtree it returns (`InsertPost`,
  `RemovePost`). It proves that each recursion step keeps that promise.
- **`Hset`** (`hset.dfy`) holds the class `Set` with the fields `root` and
  `sz` that its methods update, under the invariant
  `Valid() = IsAvl(root) && Ordered(root) && sz == |InOrder(root)|`.
  - Recursive `InsertImpl`/`RemoveImpl`, which change `sz` where the source
    does.
  - `NextNode`/`PrevNode` with the source's descent and climb loops.
  - `ClearSet`, and the public `begin`, `end`, `size`, `empty`, `find`,
    `lower_bound`, `insert` and `erase`.
  - The range, copy and assignment constructors, built on repeated
    `insert` and forward iteration.
  - A worked example: the set {5, 3, 8, 1, 4, 7, 9} is built, copied and
    then has 5 erased.

`NextNode` applied to `endElem` is usually described as undefined. As
written, the code returns `endElem`: the sentinel has no right child and no
parent, so the climb loop never runs. The model follows the code, so
`NextNode(EndElem) == EndElem`.

## Model

Four small readers have no contract of their own; the rows named here state
their behaviour. `AvlTree.Height` (amic5.cpp:35-40) is tied to the true
height by `AvlTree.CachedHeightIsDepth`. `AvlTree.BalFact` (amic5.cpp:42-44)
is bounded by `Balance.BalanceNodeAvl` and the four case lemmas.
`Hset.Set.End` (amic5.cpp:331-333) is the sentinel value `EndElem`, and
`Hset.Set.Begin`, `Hset.Set.Find` and `Hset.Set.LowerBound` state when they
return it. `Lookup.KeyAt`, the dereference `operator*` (amic5.cpp:308-310),
is tied to the in-order sequence by `Lookup.RankKey`.

| member | source | states |
|---|---|---|
| AvlTree.CachedHeightIsDepth | amic5.cpp:35-48 | when every cached height is one more than the larger child height, `Height` returns the subtree's true height, and a node's height is at least 1 |
| AvlTree.InOrderKeys | amic5.cpp:213-236 | the in-order sequence the iterator walks holds exactly the keys stored in the subtree |
| AvlTree.InOrderSet | amic5.cpp:213-236 | the same fact as sets: the set of in-order keys equals the set of stored keys |
| AvlTree.OrderedIffSorted | amic5.cpp:288-333 | search-tree order holds if and only if the in-order sequence is strictly increasing (both directions) |
| AvlTree.OrderedNodeCount | amic5.cpp:335-337 | in a search tree the node count equals the number of distinct keys, so `sz` counting nodes is the set's size |
| AvlTree.SortedListingUnique | amic5.cpp:288-333 | two strictly increasing sequences with the same elements are equal, so in-order iteration determines one listing per key set |
| AvlTree.AvlSizeBound | amic5.cpp:86-107 | an AVL tree of height h has at least 2^(h/2) - 1 nodes, so the height is logarithmic in the size |
| Balance.HeightRecalc | amic5.cpp:46-48 | only the node's own height changes, and it becomes max(child heights) + 1 |
| Balance.RotateRight | amic5.cpp:50-66 | the left child becomes the root and the old root takes over its right subtree; in-order keys are unchanged, order is preserved, only the two moved nodes get new heights, and correct heights stay correct |
| Balance.RotateLeft | amic5.cpp:68-84 | the mirror image of RotateRight, with the same guarantees |
| Balance.FixRightHeavy | amic5.cpp:88-96 | the right-heavy branch (a right rotation of the right child when it leans left, then a left rotation) keeps in-order keys and order and leaves correct heights |
| Balance.FixLeftHeavy | amic5.cpp:97-105 | the left-heavy branch, mirrored, with the same guarantees |
| Balance.BalanceNode | amic5.cpp:86-107 | rebalancing keeps the in-order keys and search order and leaves correct heights; a node already satisfying the AVL rule comes back unchanged |
| Balance.BalanceNodeAvl | amic5.cpp:86-107 | if both children are AVL trees whose heights differ by at most 2, the result is an AVL tree; its height is max(child heights)+1 when no rotation is needed, and max or max+1 otherwise |
| Balance.RightRightCaseAvl | amic5.cpp:88-96 | a right-heavy node whose right child does not lean left is balanced by one left rotation |
| Balance.LeftLeftCaseAvl | amic5.cpp:97-105 | a left-heavy node whose left child does not lean right is balanced by one right rotation |
| Balance.RightLeftCaseAvl | amic5.cpp:88-96 | a right-heavy node whose right child leans left is balanced by the double rotation, which keeps the right child's height |
| Balance.LeftRightCaseAvl | amic5.cpp:97-105 | the mirrored double rotation balances a left-heavy node whose left child leans right |
| Balance.RemoveMin | amic5.cpp:159-169 | the result holds the in-order keys without the first one, keeps order and correct heights, and no longer contains the minimum |
| Balance.RemoveMinAvl | amic5.cpp:159-169 | RemoveMin keeps the AVL rule and lowers the height by at most one |
| Lookup.RankKey | amic5.cpp:308-310 | dereferencing the node at a path yields the key at its in-order rank |
| Lookup.NextRankIsNextKey | amic5.cpp:213-263 | in a search tree, the node at the next rank holds the next larger stored key, with no stored key in between |
| Lookup.LastRankIsMax | amic5.cpp:213-236 | a node has the last rank if and only if its key is the largest stored key |
| Lookup.FirstRankIsMin | amic5.cpp:238-263 | a node has rank 0 if and only if its key is the smallest stored key |
| Lookup.FindMin | amic5.cpp:129-134 | the result is a node without a left child, at rank 0, holding the smallest key of a search tree |
| Lookup.FindMax | amic5.cpp:136-141 | the result is a node without a right child, at the last rank, holding the largest key of a search tree |
| Lookup.FindVal | amic5.cpp:143-157 | the result is never the sentinel; a found node holds a stored key not less than the target, and in a search tree the smallest such key; the result is null exactly when every key is less than the target (both directions in a search tree) |
| Mutation.InsertIntoLeaf | amic5.cpp:110-113 | a new one-node subtree at an empty slot meets the insert promise |
| Mutation.InsertFound | amic5.cpp:109-127 | an equal key stops the descent; the node still meets the insert promise, and an AVL search tree comes back unchanged |
| Mutation.InsertLeftKeys | amic5.cpp:114-119 | relinking an insert result as the left child adds exactly the new key and keeps order |
| Mutation.InsertRightKeys | amic5.cpp:120-125 | the same for the right child |
| Mutation.InsertLeftStep | amic5.cpp:114-126 | inserting on the left and rebalancing meets the insert promise one level up |
| Mutation.InsertRightStep | amic5.cpp:120-126 | the same for the right side |
| Mutation.RemoveLeftStep | amic5.cpp:175-181 | removing on the left and rebalancing meets the remove promise one level up |
| Mutation.RemoveRightStep | amic5.cpp:182-188 | the same for the right side |
| Mutation.RemoveMatchNoRight | amic5.cpp:189-198 | a matching node with no right child is replaced by its left child, which meets the remove promise |
| Mutation.KeysWithoutRoot | amic5.cpp:189-211 | in a search tree, removing the root's key leaves exactly the keys of its two children |
| Mutation.MinAndRest | amic5.cpp:199-200 | FindMin's node holds the first in-order key; RemoveMin leaves all other keys, and in a search tree all of them are greater |
| Mutation.SplicedKeys | amic5.cpp:199-209 | putting the right subtree's minimum in the matched node's place keeps both children's keys and removes one node |
| Mutation.SplicedOrdered | amic5.cpp:199-209 | that splice keeps search order |
| Mutation.SplicedAvl | amic5.cpp:199-209 | the rebalanced splice of an AVL node is AVL and at most one level lower |
| Mutation.RemoveMatchSplice | amic5.cpp:189-211 | a matching node with a right child, replaced by the right subtree's minimum and rebalanced, meets the remove promise |
| Hset.Set.constructor | amic5.cpp:29-32 | a new container is valid, empty, and has `sz` 0 |
| Hset.Set.InsertImpl | amic5.cpp:109-127 | the returned subtree holds exactly the old keys plus the new key; it keeps order and the AVL rule, grows by at most one level, adds a node exactly when the key was absent, and is unchanged when it was present; `sz` grows by the number of nodes added |
| Hset.Set.RemoveImpl | amic5.cpp:171-211 | the returned subtree holds exactly the old keys minus the removed key; it keeps order and the AVL rule, shrinks by at most one level, loses a node exactly when the key was present, and is unchanged when it was absent; `sz` drops by the number of nodes removed |
| Hset.Set.Leftmost | amic5.cpp:214-219 | the descent along left children reaches the first node, in in-order, of the subtree it starts from |
| Hset.Set.Rightmost | amic5.cpp:241-246 | the descent along right children reaches the last node of the subtree it starts from |
| Hset.Set.NextNode | amic5.cpp:213-236 | from a node, the result is the node at the next rank, holding the next larger key with no stored key in between; the result is endElem exactly when the node holds the largest key; endElem steps to endElem; the result is never null |
| Hset.Set.PrevNode | amic5.cpp:238-263 | from endElem, the result is the node with the largest key; from a node, it is the node at the previous rank, holding the next smaller key; the result is null exactly when the node holds the smallest key; the result is never the sentinel |
| Hset.Set.ClearSet | amic5.cpp:265-275 | afterwards the root is null, `sz` is 0, no keys remain, and the container is valid |
| Hset.Set.Begin | amic5.cpp:325-329 | the result equals end() exactly when the set is empty; otherwise it is the node at rank 0, holding the smallest key |
| Hset.Set.Size | amic5.cpp:335-337 | returns the number of distinct stored keys |
| Hset.Set.Empty | amic5.cpp:339-341 | true exactly when no key is stored |
| Hset.Set.Find | amic5.cpp:384-389 | the result is end() exactly when the key is absent; otherwise it is the node holding the key |
| Hset.Set.LowerBound | amic5.cpp:391-396 | the result is end() exactly when every key is less than the argument; otherwise it is the node holding the smallest stored key not less than the argument |
| Hset.Set.Insert | amic5.cpp:343-347 | keeps the invariant; the keys become old keys plus the new key; `sz` grows exactly when the key was absent; a present key leaves the tree as it was |
| Hset.Set.Erase | amic5.cpp:349-353 | keeps the invariant; the keys become old keys minus the key; `sz` shrinks exactly when the key was present; an absent key leaves the tree as it was |
| Hset.Set.FromSeq | amic5.cpp:357-365 | the range and initializer-list constructors yield a valid container holding exactly the distinct values of the input; duplicates are dropped |
| Hset.Set.InsertFrom | amic5.cpp:378-380 | walking another container from begin() to end() with NextNode and inserting each key adds exactly that container's keys |
| Hset.Set.Traverse | amic5.cpp:288-333 | forward iteration from begin() to end() visits the in-order sequence, which is strictly increasing and holds exactly the stored keys |
| Hset.Set.Copy | amic5.cpp:367 | the copy constructor yields a valid container with the same keys as its source |
| Hset.Set.Assign | amic5.cpp:374-382 | after assignment the container holds exactly the source's keys; assigning a container to itself changes nothing |
| Hset.ListKeys | amic5.cpp:288-333 | iterating a valid container lists its keys as the one strictly increasing sequence of them |
| Hset.ProbeSix | amic5.cpp:384-396 | in a container holding {1, 3, 4, 7, 8, 9}, find(6) is end() and lower_bound(6) stands at 7 |
| Hset.Scenario | amic5.cpp:343-396 | building {5, 3, 8, 1, 4, 7, 9} lists 1,3,4,5,7,8,9; erasing 5 lists 1,3,4,7,8,9; a copy made before the erase still lists all seven keys; find(6) is end() and lower_bound(6) is 7 |

## Left out

- Heap management: node allocation in `InsertImpl`, `delete` in `RemoveImpl` and `ClearSet`, and the destructor. Subtrees are values, so there is no ownership, leak or double free to state.
- Parent pointers: a node is identified by its path from the root. The relinking of `parentNode` fields in the rotations, `BalanceNode`, `InsertImpl`, `RemoveImpl`, `insert` and `erase` is implicit. In-place relinking and aliasing between nodes are not modelled.
- Hset.Set.InsertImpl and Hset.Set.RemoveImpl: they return the rebuilt subtree as a value. They do not update the caller's child pointer in place.
- Iterator objects (`class iterator`, its operators and `curSet`): the model works on the pointer values they wrap. `operator*` is `KeyAt`, and `++`/`--` are `NextNode`/`PrevNode`.
- Iterator validity across `insert`/`erase`: a path means nothing after a mutation, and the model does not track it.
- Hset.Set.PrevNode: it requires a non-empty tree when called on `endElem`. In the source, `FindMax(root)` then dereferences a null root, which is undefined. Stepping back from the first element yields null, as the code does.
- Hset.Set.NextNode and Hset.Set.PrevNode: they require a valid container and a pointer to one of its nodes or to the sentinel. Any other pointer is undefined in the source.
- Hset.Set.Leftmost and Hset.Set.Rightmost: these are the inline descent loops of `NextNode`/`PrevNode`, written as separate methods.
- Hset.Set.Assign: self-assignment is detected by comparing objects, where the source compares the `endElem` sentinels. The two agree because each container owns its own sentinel.
- Integer widths: `int` heights and the `size_t` count `sz` are unbounded. The AVL height bound (AvlTree.AvlSizeBound) keeps heights far below any overflow.
- Template generality: only `int` keys with `<` are modelled, not an arbitrary `ValueType` with a user-supplied strict order.
- The unused headers included by amic5.cpp (iostream, vector, queue and others) play no part in the model.
