/** The node graph of lib/binary_search_tree.rb.

    `Node` objects own their children through the mutable `left` and
    `right` links; `Tree` owns the root.  Every node carries, as ghost
    state, the set of objects of its subtree (`Repr`) and the value that
    subtree stands for (`Model`), and `Valid()` ties both to the links.
    `BuildTree` is proved to allocate a graph whose value is
    `TreeModel.Build`, and `Insert` to update one link in place so that
    the graph's value becomes `TreeModel.Inserted` of the old one. */
module BinarySearchTree {
  import TreeModel

  class Node {
    var value: int
    var left: Node?
    var right: Node?

    ghost var Repr: set<object>
    ghost var Model: TreeModel.Tree

    /** The subtree below this node is a proper tree (no sharing, no
        cycles) and `Model` is its value. */
    ghost predicate Valid()
      reads this, Repr
      decreases Repr
    {
      this in Repr &&
      (left != null ==>
        left in Repr && left.Repr <= Repr && this !in left.Repr && left.Valid()) &&
      (right != null ==>
        right in Repr && right.Repr <= Repr && this !in right.Repr && right.Valid()) &&
      (left != null && right != null ==> left.Repr !! right.Repr) &&
      Model == TreeModel.Node(value,
        if left == null then TreeModel.Nil else left.Model,
        if right == null then TreeModel.Nil else right.Model)
    }

    /** `Node.new(value)`: a node with no children. */
    constructor (value: int)
      ensures Valid() && Repr == {this}
      ensures this.value == value && left == null && right == null
      ensures Model == TreeModel.Node(value, TreeModel.Nil, TreeModel.Nil)
    {
      this.value := value;
      left := null;
      right := null;
      Repr := {this};
      Model := TreeModel.Node(value, TreeModel.Nil, TreeModel.Nil);
    }
  }

  /** The objects of the subtree behind a link. */
  ghost function ReprOf(n: Node?): set<object>
    reads n
  {
    if n == null then {} else n.Repr
  }

  /** The value of the subtree behind a link. */
  ghost function ModelOf(n: Node?): TreeModel.Tree
    reads n
  {
    if n == null then TreeModel.Nil else n.Model
  }

  class Tree {
    var root: Node?

    ghost var Repr: set<object>

    /** The root's subtree is a proper tree satisfying the BST order
        invariant. */
    ghost predicate Valid()
      reads this, Repr
    {
      this in Repr &&
      (root != null ==>
        root in Repr && root.Repr <= Repr && this !in root.Repr && root.Valid()) &&
      TreeModel.IsBST(Model())
    }

    ghost function Model(): TreeModel.Tree
      reads this, root
    {
      ModelOf(root)
    }

    /** `Tree.new(arr)`: the distinct values of `arr`, sorted, built into a
        balanced tree. */
    constructor (arr: seq<int>)
      ensures Valid() && fresh(Repr)
      ensures Model() == TreeModel.Build(TreeModel.SortedUniq(arr))
    {
      root := null;
      Repr := {this};
      new;
      var sorted := TreeModel.SortedUniq(arr);
      var n := BuildTree(sorted);
      root := n;
      Repr := {this} + ReprOf(n);
      TreeModel.BuildIsBST(sorted);
    }

    /** `build_tree(arr)`: allocates a fresh node graph for the slice, the
        middle element at the root. */
    method BuildTree(arr: seq<int>) returns (node: Node?)
      ensures node == null <==> arr == []
      ensures node != null ==> node.Valid() && fresh(node.Repr)
      ensures ModelOf(node) == TreeModel.Build(arr)
      decreases |arr|
    {
      if arr == [] {
        return null;
      }
      if |arr| == 1 {
        node := new Node(arr[0]);
        return;
      }
      var mid := |arr| / 2;
      var l := BuildTree(arr[..mid]);
      var r := BuildTree(arr[mid + 1..]);
      node := Link(arr[mid], l, r);
    }

    /** `Node.new(value)` with its `left` and `right` links set to two
        separately built subtrees. */
    static method Link(value: int, l: Node?, r: Node?) returns (node: Node)
      requires l != null ==> l.Valid()
      requires r != null ==> r.Valid()
      requires ReprOf(l) !! ReprOf(r)
      ensures node.Valid() && fresh(node) && node.value == value
      ensures node.left == l && node.right == r
      ensures node.Repr == {node} + ReprOf(l) + ReprOf(r)
      ensures node.Model == TreeModel.Node(value, ModelOf(l), ModelOf(r))
    {
      node := new Node(value);
      node.left, node.right, node.Repr, node.Model :=
        l, r, {node} + ReprOf(l) + ReprOf(r), TreeModel.Node(value, ModelOf(l), ModelOf(r));
    }

    /** `contains?(value, node)`: searches both subtrees of `node`, whatever
        the order of the values. */
    function Contains(value: int, node: Node?): (found: bool)
      requires node != null ==> node.Valid()
      reads if node == null then {} else node.Repr
      decreases if node == null then {} else node.Repr
      ensures found <==> value in TreeModel.Elems(ModelOf(node))
    {
      if node == null then false
      else if value == node.value then true
      else Contains(value, node.left) || Contains(value, node.right)
    }

    /** `insert(value)`: a no-op returning `null` when `value` is present.
        Otherwise, on a non-empty tree, a new leaf is linked in and the
        root is returned; on an empty tree the new node is returned but
        never stored, so the tree stays empty. */
    method Insert(value: int) returns (r: Node?, ghost added: Node?)
      requires Valid()
      modifies Repr
      ensures Valid() && fresh(Repr - old(Repr))
      ensures root == old(root)
      ensures old(value in TreeModel.Elems(Model())) ==>
        r == null && added == null && Model() == old(Model()) && Repr == old(Repr) &&
        unchanged(old(Repr))
      ensures old(value !in TreeModel.Elems(Model())) && old(root) == null ==>
        r == added && r != null && fresh(r) && r.Valid() &&
        r.Model == TreeModel.Node(value, TreeModel.Nil, TreeModel.Nil) &&
        Model() == TreeModel.Nil
      ensures old(value !in TreeModel.Elems(Model())) && old(root) != null ==>
        r == root && added != null && fresh(added) && added.value == value &&
        Repr == old(Repr) + {added} &&
        Model() == TreeModel.Inserted(old(Model()), value) &&
        TreeModel.Elems(Model()) == old(TreeModel.Elems(Model())) + {value} &&
        TreeModel.Size(Model()) == old(TreeModel.Size(Model())) + 1
    {
      ghost var before := Model();
      r, added := InsertAt(value, root);
      if root != null && added != null {
        Repr := Repr + {added};
      }
      if root != null {
        TreeModel.InsertedBST(before, value);
        TreeModel.InsertedElems(before, value);
        if value !in TreeModel.Elems(before) {
          TreeModel.InsertedSize(before, value);
        }
      }
    }

    /** The recursion of `insert(value, node)`.  Each call first repeats
        `contains?(value)` on the whole tree; the tree is not touched
        before the recursive call, so every level sees the same answer as
        the first.  Below that, a missing link yields a new node, and a
        present node has its `left` (value smaller) or `right` (value
        larger) link reassigned to the result of the recursive call and is
        returned itself.  `added` names the one node allocated. */
    method InsertAt(value: int, node: Node?) returns (r: Node?, ghost added: Node?)
      requires Valid()
      requires node != null ==>
        node.Valid() && TreeModel.Elems(node.Model) <= TreeModel.Elems(Model())
      modifies ReprOf(node)
      ensures old(Contains(value, root)) ==> r == null && added == null
      ensures !old(Contains(value, root)) ==>
        r != null && added != null && fresh(added) && r.Valid() &&
        added.value == value && added.left == null && added.right == null &&
        r.Repr == old(ReprOf(node)) + {added} &&
        r.Model == TreeModel.Inserted(old(ModelOf(node)), value) &&
        (node == null ==> r == added) && (node != null ==> r == node)
      ensures old(Contains(value, root)) ==> unchanged(old(ReprOf(node)))
      decreases ReprOf(node), 1
    {
      if Contains(value, root) {
        return null, null;
      }
      if node == null {
        r := new Node(value);
        return r, r;
      }
      added := null;
      if value < node.value {
        added := GrowLeft(value, node);
      } else if value > node.value {
        added := GrowRight(value, node);
      }
      r := node;
    }

    /** `node.left = insert(value, node.left)`: the left link is replaced
        only when it was absent, by the new leaf; the rest of `node` stays. */
    method GrowLeft(value: int, node: Node) returns (ghost added: Node)
      requires Valid() && !Contains(value, root)
      requires node.Valid() && TreeModel.Elems(node.Model) <= TreeModel.Elems(Model())
      requires value < node.value
      modifies node.Repr
      ensures node.value == old(node.value) && node.right == old(node.right)
      ensures old(node.left) == null ==> node.left == added
      ensures old(node.left) != null ==> node.left == old(node.left)
      ensures fresh(added) && node.Valid() &&
        added.value == value && added.left == null && added.right == null &&
        node.Repr == old(node.Repr) + {added} &&
        node.Model == TreeModel.Inserted(old(node.Model), value)
      decreases node.Repr, 0
    {
      var l, a := InsertAt(value, node.left);
      added := a;
      node.left, node.Repr, node.Model :=
        l, node.Repr + {added}, TreeModel.Node(node.value, ModelOf(l), ModelOf(node.right));
    }

    /** `node.right = insert(value, node.right)`, symmetrically. */
    method GrowRight(value: int, node: Node) returns (ghost added: Node)
      requires Valid() && !Contains(value, root)
      requires node.Valid() && TreeModel.Elems(node.Model) <= TreeModel.Elems(Model())
      requires value > node.value
      modifies node.Repr
      ensures node.value == old(node.value) && node.left == old(node.left)
      ensures old(node.right) == null ==> node.right == added
      ensures old(node.right) != null ==> node.right == old(node.right)
      ensures fresh(added) && node.Valid() &&
        added.value == value && added.left == null && added.right == null &&
        node.Repr == old(node.Repr) + {added} &&
        node.Model == TreeModel.Inserted(old(node.Model), value)
      decreases node.Repr, 0
    {
      var rt, a := InsertAt(value, node.right);
      added := a;
      node.right, node.Repr, node.Model :=
        rt, node.Repr + {added}, TreeModel.Node(node.value, ModelOf(node.left), ModelOf(rt));
    }
  }
}
