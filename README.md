# Binary search tree of lib/binary_search_tree.rb, in Dafny

This project models the Ruby class pair `Node`/`Tree` from
`lib/binary_search_tree.rb` and proves what the class promises:

- `Tree.new(arr)` builds a height-balanced binary search tree holding each
  distinct value of `arr` exactly once;
- `insert(value)` links one new leaf in place at the end of the comparison
  path and leaves the tree alone when the value is already present;
- the private `contains?` answers whether a value is stored anywhere in a
  subtree.

Two modules:

- `TreeModel` (tree_model.dfy): the value-level view. A `Tree` datatype
  gives a subtree's shape and contents, with the views `Elems`, `Size`,
  `InOrder` and `Height`, the BST order invariant `IsBST`, and AVL-style
  `Balanced`. `Build` follows `build_tree` step for step. `Inserted`
  follows the descent of `insert` (lines 32-37). It leaves out the
  `contains?` check that line 30 repeats at every level, because that
  check gives the same answer at every level of one call; `InsertAt`
  models it. `SortedUniq` is the reference for `arr.uniq.sort`. The
  lemmas state what the two operations promise.
- `BinarySearchTree` (binary_search_tree.dfy): the node graph itself.
  `Node` is a class with mutable `value`, `left` and `right` fields.
  `Tree` is a class with a mutable `root`. Each node carries as ghost
  state the objects of its subtree (`Repr`) and the `TreeModel.Tree`
  value it stands for (`Model`); `Valid()` says the links form a proper
  tree (no sharing, no cycles) whose value is `Model`.
  - `BuildTree` and `Link` allocate nodes.
  - `Insert`, `InsertAt`, `GrowLeft` and `GrowRight` reassign one link in
    place.
  - Each method is proved to produce a proper node graph whose value is
    the one `TreeModel.Build` or `TreeModel.Inserted` gives, and whose
    objects are the old ones plus the freshly allocated ones.

Two points of the code are worth knowing:

- `contains?` (lines 48-53) searches both subtrees of every node.
  `Contains` models this exhaustive search. `TreeModel.SearchAgrees`
  proves that an order-guided descent would agree with it on every BST.
  `TreeModel.SearchNeedsOrder` gives a tree that breaks the order where
  the descent would not agree.
- `insert` on a tree whose root is `nil` returns `Node.new(value)`
  (line 32) without storing it in `@root`, so the tree stays empty.
  `Insert` states this case: the result is a fresh leaf, and the tree's
  value is still `Nil`.

## Model

| member | source | states |
|---|---|---|
| BinarySearchTree.Node.constructor | lib/binary_search_tree.rb:4-8 | the new node holds `value`, both links are absent, and it heads a proper one-node tree whose value is a leaf |
| BinarySearchTree.Tree.constructor | lib/binary_search_tree.rb:12-14 | the new tree is valid: a proper node graph satisfying the BST order invariant, whose value is exactly `Build(SortedUniq(arr))`, all nodes freshly allocated |
| TreeModel.SortedUniq | lib/binary_search_tree.rb:13 | the sorted distinct values: strictly ascending, and a value occurs in it exactly when it occurs in `arr` |
| TreeModel.AscendingUnique | lib/binary_search_tree.rb:13 | two strictly ascending sequences with the same elements are equal, so `SortedUniq(arr)` is the one sequence `arr.uniq.sort` can produce |
| TreeModel.NewTreeFacts | lib/binary_search_tree.rb:12-14 | the tree `Tree.new(arr)` builds is a BST, balanced at every node, holds exactly the values of `arr`, and holds each one in exactly one node |
| TreeModel.Build | lib/binary_search_tree.rb:16-27 | the value `build_tree` produces from a slice: no node for an empty slice, a leaf for one element, otherwise the element at `len/2` above the trees built from the elements before and after it; its properties are the `Build*` lemmas below |
| BinarySearchTree.Tree.BuildTree | lib/binary_search_tree.rb:16-27 | the result is absent exactly for an empty slice; otherwise it heads a freshly allocated proper tree; in both cases its value is `Build(arr)` |
| BinarySearchTree.Tree.Link | lib/binary_search_tree.rb:21-24 | a fresh node holding the middle value whose `left` and `right` links are the two separately built subtrees; it heads a proper tree covering both subtrees |
| TreeModel.BuildShape | lib/binary_search_tree.rb:17-24 | an empty slice gives no node; one element gives a leaf; otherwise the root holds `arr[len/2]`, the left subtree has `len/2` nodes and the right `len - len/2 - 1` |
| TreeModel.BuildInOrder | lib/binary_search_tree.rb:16-27 | reading a built tree in order (left, node, right) gives back the slice |
| TreeModel.BuildIsBST | lib/binary_search_tree.rb:16-27 | a tree built from a strictly ascending slice satisfies the BST order invariant |
| TreeModel.BuildElems | lib/binary_search_tree.rb:16-27 | a built tree has one node per slice element and holds exactly the slice's values |
| TreeModel.BuildHasHeight | lib/binary_search_tree.rb:20-24 | the height of a built tree depends only on the slice length, following the `n / 2` split |
| TreeModel.BuildBalanced | lib/binary_search_tree.rb:20-24 | at every node of a built tree the heights of the two subtrees differ by at most one |
| TreeModel.BuildLogHeight | lib/binary_search_tree.rb:20-24 | a built tree of `n >= 1` nodes has height `floor(log2 n)` |
| TreeModel.SizeBound | lib/binary_search_tree.rb:20-24 | any tree of height `h` has fewer than `2^(h+1)` nodes, the bound that makes `floor(log2 n)` optimal |
| TreeModel.BuildMinimalHeight | lib/binary_search_tree.rb:20-24 | no tree with as many nodes as the slice is lower than the tree `build_tree` makes from it |
| TreeModel.BSTIffInOrderAscending | lib/binary_search_tree.rb:23-24 | a tree satisfies the BST order invariant exactly when its in-order sequence is strictly ascending, in both directions |
| TreeModel.BSTNoDuplicates | lib/binary_search_tree.rb:30 | in a BST every value is held by exactly one node: the number of distinct values equals the number of nodes |
| BinarySearchTree.Tree.Contains | lib/binary_search_tree.rb:48-53 | `contains?` is true exactly when the value is stored somewhere in the subtree, whatever the order of the values |
| TreeModel.SearchAgrees | lib/binary_search_tree.rb:48-53 | on a BST the order-guided descent finds a value exactly when it is stored, so it agrees with the exhaustive `contains?` |
| TreeModel.SearchNeedsOrder | lib/binary_search_tree.rb:48-53 | on a tree breaking the order invariant the order-guided descent misses a stored value that the exhaustive search finds |
| BinarySearchTree.Tree.Insert | lib/binary_search_tree.rb:29-38 | a present value: returns nil and no object of the tree changes. An absent value on a non-empty tree: the same root is returned, exactly one fresh node holding the value is added, the tree's value becomes `Inserted(old, value)`, the values grow by exactly `value`, the size by one, and the BST invariant holds. On an empty tree: a fresh leaf is returned and the tree stays empty |
| BinarySearchTree.Tree.InsertAt | lib/binary_search_tree.rb:29-38 | if `contains?(value)` holds on the whole tree, returns nil and changes nothing; otherwise an absent link yields a fresh leaf, and a present node is returned itself, now heading a proper tree whose value is `Inserted(old subtree, value)` and whose objects are the old ones plus the one fresh node |
| BinarySearchTree.Tree.GrowLeft | lib/binary_search_tree.rb:34 | `node.left` is replaced only when it was absent, and then by the new leaf; `node.value` and `node.right` stay; `node` heads a proper tree whose value is `Inserted(old, value)` with exactly one fresh node added |
| BinarySearchTree.Tree.GrowRight | lib/binary_search_tree.rb:35 | the same as `GrowLeft`, for the `right` link |
| TreeModel.Inserted | lib/binary_search_tree.rb:32-37 | the value of a subtree after `insert`'s descent: a leaf with `v` where the link is absent, the left subtree rebuilt when `v` is smaller, the right when larger, the subtree itself when `v` is held there; its properties are the `Inserted*` lemmas below |
| TreeModel.InsertedElems | lib/binary_search_tree.rb:32-37 | insertion adds the value and loses none: the values afterwards are the old ones plus `v` |
| TreeModel.InsertedSize | lib/binary_search_tree.rb:32-37 | inserting an absent value adds exactly one node |
| TreeModel.InsertedBST | lib/binary_search_tree.rb:34-35 | insertion keeps the BST order invariant |
| TreeModel.InsertedPresent | lib/binary_search_tree.rb:32-37 | on a BST that already holds `v`, the descent itself returns the tree unchanged |
| TreeModel.InsertedIdempotent | lib/binary_search_tree.rb:32-37 | on every tree, inserting the same value twice gives the same tree as inserting it once |
| TreeModel.InsertedAddsOneLeaf | lib/binary_search_tree.rb:32-37 | insertion changes exactly one link: the absent link at the end of the comparison path (left when smaller, right when larger) now holds a leaf with `v`; every old node keeps its position and value, and no other node appears |

## Left out

- `pretty_print` (lines 40-44) writes to the console; it is not modelled.
- `Array#uniq` and `Array#sort` are library code. `SortedUniq` is a
  reference definition of their combined result. `AscendingUnique` shows
  that this result is the only possible one.
- Values are Ruby objects compared with `<`, `>` and `==`. The model uses
  `int`, so the comparison is a total order.
- BinarySearchTree.Tree.BuildTree: `build_tree` allocates the root node
  before building the two halves. `Link` allocates it after them. The
  resulting graph is the same, because nothing observes the allocation
  order.
- BinarySearchTree.Tree.InsertAt: `insert(value, node)` accepts any node
  as its second argument. The model requires `node` to hold only values
  of the tree. That holds for `node = @root`, which is the only call
  `Insert` makes, and for every node the recursion reaches from it.
- BinarySearchTree.Tree.InsertAt: the claim that every other link of the
  subtree keeps its target is not stated for each heap object.
  `GrowLeft` and `GrowRight` state it for the node whose link is
  reassigned. For the rest of the subtree it is stated on values, by
  `TreeModel.InsertedAddsOneLeaf` about `Inserted`, which `InsertAt`
  is proved to realise.
- Deletion, `find`, traversals, height, depth, `balanced?` and
  `rebalance` are not defined in lib/binary_search_tree.rb and are not
  part of this model. `Height`, `Balanced`, `InOrder` and `Search` appear
  only as specification functions.
