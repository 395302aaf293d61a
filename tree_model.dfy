/** Values and specification functions for the binary search tree of
    lib/binary_search_tree.rb.

    A `Tree` value is the shape and contents of a node graph: `Nil` for an
    absent link, `Node(value, left, right)` for a node and the subtrees its
    two links own.  `Build` follows `build_tree` step for step, and
    `Inserted` follows the descent of `insert` (the `contains?` check it
    repeats at every level is modelled in binary_search_tree.dfy).  The
    node graphs built there are proved to stand for these values, and the
    lemmas below state what the two operations promise. */
module TreeModel {

  datatype Tree = Nil | Node(value: int, left: Tree, right: Tree)

  // ---------------------------------------------------------------------
  // Views of a tree

  /** The set of values stored in the tree. */
  function Elems(t: Tree): set<int> {
    match t
    case Nil => {}
    case Node(v, l, r) => Elems(l) + {v} + Elems(r)
  }

  /** The number of nodes. */
  function Size(t: Tree): nat {
    match t
    case Nil => 0
    case Node(_, l, r) => Size(l) + 1 + Size(r)
  }

  /** Left subtree, node, right subtree. */
  function InOrder(t: Tree): seq<int> {
    match t
    case Nil => []
    case Node(v, l, r) => InOrder(l) + [v] + InOrder(r)
  }

  function Max(a: int, b: int): int {
    if a < b then b else a
  }

  /** Edges on the longest downward path; -1 for an absent subtree. */
  function Height(t: Tree): int {
    match t
    case Nil => -1
    case Node(_, l, r) => 1 + Max(Height(l), Height(r))
  }

  /** The BST order invariant: everything left of a node is smaller than
      its value, everything right of it is larger. */
  predicate IsBST(t: Tree) {
    match t
    case Nil => true
    case Node(v, l, r) =>
      (forall x :: x in Elems(l) ==> x < v) &&
      (forall x :: x in Elems(r) ==> v < x) &&
      IsBST(l) && IsBST(r)
  }

  /** Height balance in the AVL sense, at every node. */
  predicate Balanced(t: Tree) {
    match t
    case Nil => true
    case Node(_, l, r) =>
      -1 <= Height(l) - Height(r) <= 1 && Balanced(l) && Balanced(r)
  }

  predicate StrictlyAscending(s: seq<int>) {
    forall i, j :: 0 <= i < j < |s| ==> s[i] < s[j]
  }

  /** The subtree reached from the root by following `p`, where `false`
      takes a `left` link and `true` a `right` link. */
  function At(t: Tree, p: seq<bool>): Tree
    decreases |p|
  {
    if p == [] then t
    else match t
      case Nil => Nil
      case Node(_, l, r) => At(if p[0] then r else l, p[1..])
  }

  /** Order-guided lookup: compare, then descend into one side only. */
  function Search(t: Tree, v: int): bool {
    match t
    case Nil => false
    case Node(x, l, r) =>
      if v == x then true else if v < x then Search(l, v) else Search(r, v)
  }

  // ---------------------------------------------------------------------
  // Basic facts

  lemma {:induction false} InOrderElems(t: Tree)
    ensures |InOrder(t)| == Size(t)
    ensures forall x :: x in InOrder(t) <==> x in Elems(t)
  {
    match t
    case Nil =>
    case Node(v, l, r) =>
      InOrderElems(l);
      InOrderElems(r);
  }

  lemma AscendingSplit(a: seq<int>, v: int, b: seq<int>)
    ensures StrictlyAscending(a + [v] + b) <==>
      StrictlyAscending(a) && StrictlyAscending(b) &&
      (forall x :: x in a ==> x < v) && (forall y :: y in b ==> v < y)
  {
    var s := a + [v] + b;
    if StrictlyAscending(s) {
      forall i, j | 0 <= i < j < |a| ensures a[i] < a[j] {
        assert a[i] == s[i] && a[j] == s[j];
      }
      forall i, j | 0 <= i < j < |b| ensures b[i] < b[j] {
        assert b[i] == s[|a| + 1 + i] && b[j] == s[|a| + 1 + j];
      }
      forall x | x in a ensures x < v {
        var i :| 0 <= i < |a| && a[i] == x;
        assert s[i] == x && s[|a|] == v;
      }
      forall y | y in b ensures v < y {
        var j :| 0 <= j < |b| && b[j] == y;
        assert s[|a| + 1 + j] == y && s[|a|] == v;
      }
    }
    if StrictlyAscending(a) && StrictlyAscending(b) &&
       (forall x :: x in a ==> x < v) && (forall y :: y in b ==> v < y)
    {
      forall i, j | 0 <= i < j < |s| ensures s[i] < s[j] {
        if j < |a| {
          assert s[i] == a[i] && s[j] == a[j];
        } else if j == |a| {
          assert s[i] == a[i] && a[i] in a;
        } else if i > |a| {
          assert s[i] == b[i - |a| - 1] && s[j] == b[j - |a| - 1];
        } else if i == |a| {
          assert s[j] == b[j - |a| - 1] && s[j] in b;
        } else {
          assert s[i] == a[i] && a[i] in a;
          assert s[j] == b[j - |a| - 1] && s[j] in b;
        }
      }
    }
  }

  /** The BST order invariant holds exactly when the in-order sequence is
      strictly ascending, so a BST holds no value twice. */
  lemma {:induction false} BSTIffInOrderAscending(t: Tree)
    ensures IsBST(t) <==> StrictlyAscending(InOrder(t))
  {
    match t
    case Nil =>
    case Node(v, l, r) =>
      BSTIffInOrderAscending(l);
      BSTIffInOrderAscending(r);
      InOrderElems(l);
      InOrderElems(r);
      AscendingSplit(InOrder(l), v, InOrder(r));
  }

  /** Uniqueness: in a BST every value is held by exactly one node. */
  lemma {:induction false} BSTNoDuplicates(t: Tree)
    requires IsBST(t)
    ensures |Elems(t)| == Size(t)
  {
    match t
    case Nil =>
    case Node(v, l, r) =>
      BSTNoDuplicates(l);
      BSTNoDuplicates(r);
      forall x | x in Elems(r) ensures x !in Elems(l) && x != v {
        assert v < x;
      }
      assert Elems(l) !! {v} && (Elems(l) + {v}) !! Elems(r);
  }

  /** On a BST the order-guided descent finds exactly the stored values,
      so it agrees with the exhaustive search of `contains?`. */
  lemma {:induction false} SearchAgrees(t: Tree, v: int)
    requires IsBST(t)
    ensures Search(t, v) <==> v in Elems(t)
  {
    match t
    case Nil =>
    case Node(x, l, r) =>
      SearchAgrees(l, v);
      SearchAgrees(r, v);
  }

  /** Without the order invariant the two searches differ: a value stored
      on the wrong side is invisible to the descent. */
  lemma SearchNeedsOrder()
    ensures var t := Node(5, Nil, Node(3, Nil, Nil));
      !IsBST(t) && 3 in Elems(t) && !Search(t, 3)
  {
    var leaf := Node(3, Nil, Nil);
    var t := Node(5, Nil, leaf);
    assert 3 in Elems(leaf);
    assert Elems(t) == {5} + Elems(leaf);
    assert !Search(t, 3) by { assert Search(t, 3) == Search(Nil, 3); }
  }

  // ---------------------------------------------------------------------
  // Tree.new: `arr.uniq.sort`

  /** Adds `x` to an ascending duplicate-free sequence, keeping it so. */
  function InsertSorted(s: seq<int>, x: int): (r: seq<int>)
    requires StrictlyAscending(s)
    ensures StrictlyAscending(r)
    ensures forall y :: y in r <==> y in s || y == x
  {
    if s == [] then [x]
    else if x < s[0] then AscendingSplit([], x, s); [x] + s
    else if x == s[0] then s
    else
      var rest := InsertSorted(s[1..], x);
      assert s == [] + [s[0]] + s[1..];
      AscendingSplit([], s[0], s[1..]);
      AscendingSplit([], s[0], rest);
      assert [s[0]] + rest == [] + [s[0]] + rest;
      [s[0]] + rest
  }

  /** The distinct values of `arr` in ascending order (what `arr.uniq.sort`
      yields for integer keys). */
  function SortedUniq(arr: seq<int>): (r: seq<int>)
    ensures StrictlyAscending(r)
    ensures forall x :: x in r <==> x in arr
  {
    if arr == [] then []
    else
      var init := arr[..|arr| - 1];
      assert arr == init + [arr[|arr| - 1]];
      InsertSorted(SortedUniq(init), arr[|arr| - 1])
  }

  /** A strictly ascending sequence is determined by its set of elements,
      so `SortedUniq(arr)` is the only sequence `arr.uniq.sort` can be. */
  lemma {:induction false} SameElementsBothEmpty(a: seq<int>, b: seq<int>)
    requires forall x :: x in a <==> x in b
    ensures a == [] <==> b == []
  {
    if a != [] {
      var x := a[0];
      assert x in a;
    }
    if b != [] {
      var y := b[0];
      assert y in b;
    }
  }

  lemma {:induction false} AscendingUnique(a: seq<int>, b: seq<int>)
    requires StrictlyAscending(a) && StrictlyAscending(b)
    requires forall x :: x in a <==> x in b
    ensures a == b
  {
    SameElementsBothEmpty(a, b);
    if a != [] && b != [] {
      var x, y := a[0], b[0];
      assert x in a && y in b;
      assert a[0] == b[0] by {
        var i :| 0 <= i < |b| && b[i] == a[0];
        var j :| 0 <= j < |a| && a[j] == b[0];
        assert b[0] <= a[0] && a[0] <= b[0];
      }
      AscendingSplit([], a[0], a[1..]);
      AscendingSplit([], b[0], b[1..]);
      assert a == [a[0]] + a[1..] && b == [b[0]] + b[1..];
      forall x ensures x in a[1..] <==> x in b[1..] {
        if x in a[1..] { assert x in a && x != a[0]; }
        if x in b[1..] { assert x in b && x != b[0]; }
      }
      AscendingUnique(a[1..], b[1..]);
    }
  }

  // ---------------------------------------------------------------------
  // build_tree

  /** The tree `build_tree` makes from a slice: the element at index
      `|arr| / 2` is the root, the elements before it form the left
      subtree and those after it the right subtree. */
  function Build(arr: seq<int>): Tree
    decreases |arr|
  {
    if arr == [] then Nil
    else if |arr| == 1 then Node(arr[0], Nil, Nil)
    else
      var mid := |arr| / 2;
      Node(arr[mid], Build(arr[..mid]), Build(arr[mid + 1..]))
  }

  /** The shape of a built slice: empty gives no node, one element a leaf,
      and otherwise the middle element at the root with `|arr| / 2`
      elements to its left and the rest, one fewer or as many, to its
      right. */
  lemma BuildShape(arr: seq<int>)
    ensures arr == [] ==> Build(arr) == Nil
    ensures |arr| == 1 ==> Build(arr) == Node(arr[0], Nil, Nil)
    ensures |arr| >= 1 ==>
      Build(arr).Node? && Build(arr).value == arr[|arr| / 2] &&
      Size(Build(arr).left) == |arr| / 2 &&
      Size(Build(arr).right) == |arr| - |arr| / 2 - 1
  {
    if |arr| >= 1 {
      BuildInOrder(arr);
      var t := Build(arr);
      InOrderElems(t.left);
      InOrderElems(t.right);
    }
  }

  /** Building preserves the slice: reading the tree back in order gives
      the slice unchanged. */
  lemma {:induction false} BuildInOrder(arr: seq<int>)
    ensures InOrder(Build(arr)) == arr
    decreases |arr|
  {
    if |arr| >= 2 {
      var mid := |arr| / 2;
      BuildInOrder(arr[..mid]);
      BuildInOrder(arr[mid + 1..]);
      assert arr == arr[..mid] + [arr[mid]] + arr[mid + 1..];
    }
  }

  /** A tree built from a strictly ascending slice satisfies the BST order
      invariant. */
  lemma BuildIsBST(arr: seq<int>)
    requires StrictlyAscending(arr)
    ensures IsBST(Build(arr))
  {
    BuildInOrder(arr);
    BSTIffInOrderAscending(Build(arr));
  }

  /** A built tree holds exactly the values of the slice, one node each. */
  lemma BuildElems(arr: seq<int>)
    ensures Size(Build(arr)) == |arr|
    ensures forall x :: x in Elems(Build(arr)) <==> x in arr
  {
    BuildInOrder(arr);
    InOrderElems(Build(arr));
  }

  /** Height of the tree `build_tree` makes from `n` elements. */
  function BuildHeight(n: nat): int {
    if n == 0 then -1 else 1 + BuildHeight(n / 2)
  }

  lemma {:induction false} BuildHeightMonotone(m: nat, n: nat)
    requires m <= n
    ensures BuildHeight(m) <= BuildHeight(n)
  {
    if m > 0 {
      BuildHeightMonotone(m / 2, n / 2);
    } else if n > 0 {
      BuildHeightMonotone(0, n / 2);
    }
  }

  lemma {:induction false} BuildHeightStep(n: nat)
    ensures BuildHeight(n + 1) <= BuildHeight(n) + 1
  {
    if n > 0 && n % 2 == 1 {
      BuildHeightStep(n / 2);
      assert (n + 1) / 2 == n / 2 + 1;
    }
  }

  /** The height of a built tree depends only on the slice length. */
  lemma {:induction false} BuildHasHeight(arr: seq<int>)
    ensures Height(Build(arr)) == BuildHeight(|arr|)
    decreases |arr|
  {
    if |arr| >= 2 {
      var mid := |arr| / 2;
      BuildHasHeight(arr[..mid]);
      BuildHasHeight(arr[mid + 1..]);
      BuildHeightMonotone(|arr| - mid - 1, mid);
    }
  }

  /** Every node of a built tree is height-balanced: its two subtrees
      hold `n / 2` and `n - n / 2 - 1` elements, and those heights differ
      by at most one. */
  lemma {:induction false} BuildBalanced(arr: seq<int>)
    ensures Balanced(Build(arr))
    decreases |arr|
  {
    if |arr| >= 2 {
      var mid := |arr| / 2;
      var rest := |arr| - mid - 1;
      BuildBalanced(arr[..mid]);
      BuildBalanced(arr[mid + 1..]);
      BuildHasHeight(arr[..mid]);
      BuildHasHeight(arr[mid + 1..]);
      BuildHeightMonotone(rest, mid);
      BuildHeightMonotone(mid, rest + 1);
      BuildHeightStep(rest);
    }
  }

  function Pow2(k: nat): nat {
    if k == 0 then 1 else 2 * Pow2(k - 1)
  }

  lemma {:induction false} BuildHeightIsLog(n: nat)
    requires n >= 1
    ensures BuildHeight(n) >= 0
    ensures Pow2(BuildHeight(n)) <= n < Pow2(BuildHeight(n) + 1)
  {
    if n / 2 >= 1 {
      BuildHeightIsLog(n / 2);
    }
  }

  /** A built tree of `n >= 1` nodes has height `floor(log2 n)`. */
  lemma BuildLogHeight(arr: seq<int>)
    requires |arr| >= 1
    ensures Height(Build(arr)) >= 0
    ensures Pow2(Height(Build(arr))) <= |arr| < Pow2(Height(Build(arr)) + 1)
  {
    BuildHasHeight(arr);
    BuildHeightIsLog(|arr|);
  }

  lemma {:induction false} Pow2Monotone(j: nat, k: nat)
    requires j <= k
    ensures Pow2(j) <= Pow2(k)
    decreases k
  {
    if j < k {
      Pow2Monotone(j, k - 1);
    }
  }

  /** A tree of height `h` has fewer than `2^(h+1)` nodes. */
  lemma {:induction false} SizeBound(t: Tree)
    ensures Height(t) >= -1
    ensures Size(t) < Pow2(Height(t) + 1)
  {
    match t
    case Nil =>
    case Node(_, l, r) =>
      SizeBound(l);
      SizeBound(r);
      var h := Height(t);
      Pow2Monotone(Height(l) + 1, h);
      Pow2Monotone(Height(r) + 1, h);
  }

  /** No tree with as many nodes as the slice is lower than the one
      `build_tree` makes. */
  lemma BuildMinimalHeight(arr: seq<int>, t: Tree)
    requires |arr| >= 1 && Size(t) == |arr|
    ensures Height(Build(arr)) <= Height(t)
  {
    BuildLogHeight(arr);
    SizeBound(t);
    if Height(t) < Height(Build(arr)) {
      Pow2Monotone(Height(t) + 1, Height(Build(arr)));
      assert false;
    }
  }

  /** `Tree.new(arr)`: the tree built from the sorted distinct values of
      `arr` is a balanced BST holding each value of `arr` in exactly one
      node and nothing else. */
  lemma NewTreeFacts(arr: seq<int>)
    ensures IsBST(Build(SortedUniq(arr)))
    ensures Balanced(Build(SortedUniq(arr)))
    ensures forall x :: x in Elems(Build(SortedUniq(arr))) <==> x in arr
    ensures Size(Build(SortedUniq(arr))) == |Elems(Build(SortedUniq(arr)))|
  {
    var sorted := SortedUniq(arr);
    BuildIsBST(sorted);
    BuildElems(sorted);
    BuildBalanced(sorted);
    BSTNoDuplicates(Build(sorted));
  }

  // ---------------------------------------------------------------------
  // insert

  /** The tree after `insert(v, node)` on a subtree: descend left while `v`
      is smaller and right while it is larger, and attach a leaf holding
      `v` at the absent link where the descent ends.  On a node holding
      `v` neither comparison holds and the subtree is returned as it is. */
  function Inserted(t: Tree, v: int): Tree {
    match t
    case Nil => Node(v, Nil, Nil)
    case Node(x, l, r) =>
      if v < x then Node(x, Inserted(l, v), r)
      else if v > x then Node(x, l, Inserted(r, v))
      else t
  }

  /** The links `insert` follows for `v`: `false` for left, `true` for
      right. */
  function InsertPath(t: Tree, v: int): seq<bool> {
    match t
    case Nil => []
    case Node(x, l, r) =>
      if v < x then [false] + InsertPath(l, v)
      else if v > x then [true] + InsertPath(r, v)
      else []
  }

  /** Inserting adds `v` and loses nothing. */
  lemma {:induction false} InsertedElems(t: Tree, v: int)
    ensures Elems(Inserted(t, v)) == Elems(t) + {v}
  {
    match t
    case Nil =>
    case Node(x, l, r) =>
      InsertedElems(l, v);
      InsertedElems(r, v);
  }

  /** Inserting an absent value adds exactly one node. */
  lemma {:induction false} InsertedSize(t: Tree, v: int)
    requires v !in Elems(t)
    ensures Size(Inserted(t, v)) == Size(t) + 1
  {
    match t
    case Nil =>
    case Node(x, l, r) =>
      if v < x { InsertedSize(l, v); } else { InsertedSize(r, v); }
  }

  /** Inserting keeps the BST order invariant. */
  lemma {:induction false} InsertedBST(t: Tree, v: int)
    requires IsBST(t)
    ensures IsBST(Inserted(t, v))
  {
    match t
    case Nil =>
    case Node(x, l, r) =>
      if v < x {
        InsertedBST(l, v);
        InsertedElems(l, v);
      } else if v > x {
        InsertedBST(r, v);
        InsertedElems(r, v);
      }
  }

  /** On a BST the descent itself meets a value already present, so the
      tree comes back unchanged even without the up-front `contains?`. */
  lemma {:induction false} InsertedPresent(t: Tree, v: int)
    requires IsBST(t) && v in Elems(t)
    ensures Inserted(t, v) == t
  {
    match t
    case Nil =>
    case Node(x, l, r) =>
      if v < x { InsertedPresent(l, v); }
      else if v > x { InsertedPresent(r, v); }
  }

  /** Inserting the same value twice gives the tree that inserting it
      once gives. */
  lemma {:induction false} InsertedIdempotent(t: Tree, v: int)
    ensures Inserted(Inserted(t, v), v) == Inserted(t, v)
  {
    match t
    case Nil =>
    case Node(x, l, r) =>
      if v < x { InsertedIdempotent(l, v); }
      else if v > x { InsertedIdempotent(r, v); }
  }

  lemma {:induction false} InsertedKeepsNode(t: Tree, v: int, p: seq<bool>)
    requires At(t, p).Node?
    ensures At(Inserted(t, v), p).Node?
    ensures At(Inserted(t, v), p).value == At(t, p).value
    decreases |p|
  {
    if p != [] {
      match t
      case Nil =>
      case Node(x, l, r) =>
        if v < x && !p[0] {
          InsertedKeepsNode(l, v, p[1..]);
        } else if v > x && p[0] {
          InsertedKeepsNode(r, v, p[1..]);
        }
    }
  }

  lemma AtNil(p: seq<bool>)
    ensures At(Nil, p) == Nil
  {
  }

  lemma {:induction false} InsertedOnlyNew(t: Tree, v: int, p: seq<bool>)
    requires v !in Elems(t)
    requires At(Inserted(t, v), p).Node? && At(t, p).Nil?
    ensures p == InsertPath(t, v)
    decreases |p|
  {
    match t
    case Nil =>
      if p != [] {
        AtNil(p[1..]);
      }
    case Node(x, l, r) =>
      assert p != [];
      assert p == [p[0]] + p[1..];
      if v < x {
        InsertedOnlyNew(l, v, p[1..]);
      } else {
        InsertedOnlyNew(r, v, p[1..]);
      }
  }

  lemma {:induction false} InsertPathLeads(t: Tree, v: int)
    requires v !in Elems(t)
    ensures At(t, InsertPath(t, v)) == Nil
    ensures At(Inserted(t, v), InsertPath(t, v)) == Node(v, Nil, Nil)
    ensures forall i :: 0 <= i < |InsertPath(t, v)| ==>
      At(t, InsertPath(t, v)[..i]).Node? &&
      InsertPath(t, v)[i] == (v > At(t, InsertPath(t, v)[..i]).value)
  {
    match t
    case Nil =>
    case Node(x, l, r) =>
      var sub := if v < x then l else r;
      var q := InsertPath(t, v);
      var q' := InsertPath(sub, v);
      InsertPathLeads(sub, v);
      assert q == [v > x] + q';
      forall i | 0 <= i < |q|
        ensures At(t, q[..i]).Node? && q[i] == (v > At(t, q[..i]).value)
      {
        if i > 0 {
          assert q[..i] == [v > x] + q'[..i - 1];
          assert q[..i][1..] == q'[..i - 1];
        }
      }
  }

  /** `insert` changes exactly one link: the absent link at the end of the
      comparison path now holds a new leaf with `v`; every node that was
      there is still there at the same position with the same value, and
      no other node appears. */
  lemma InsertedAddsOneLeaf(t: Tree, v: int)
    requires v !in Elems(t)
    ensures var q := InsertPath(t, v);
      At(t, q) == Nil && At(Inserted(t, v), q) == Node(v, Nil, Nil) &&
      (forall i :: 0 <= i < |q| ==>
        At(t, q[..i]).Node? && q[i] == (v > At(t, q[..i]).value))
    ensures forall p :: At(t, p).Node? ==>
      At(Inserted(t, v), p).Node? && At(Inserted(t, v), p).value == At(t, p).value
    ensures forall p :: At(Inserted(t, v), p).Node? && At(t, p).Nil? ==>
      p == InsertPath(t, v)
  {
    InsertPathLeads(t, v);
    forall p | At(t, p).Node?
      ensures At(Inserted(t, v), p).Node? && At(Inserted(t, v), p).value == At(t, p).value
    {
      InsertedKeepsNode(t, v, p);
    }
    forall p | At(Inserted(t, v), p).Node? && At(t, p).Nil?
      ensures p == InsertPath(t, v)
    {
      InsertedOnlyNew(t, v, p);
    }
  }
}
