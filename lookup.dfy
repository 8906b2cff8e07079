/** Node positions and the read-only searches of hset::Set.

    A node pointer is modelled by the node's path from the root: the
    directions taken at each ancestor. The parent of a node is the path
    without its last step, and "curNode is its parent's left child" is "the
    last step is GoLeft". A position's rank is its index in the in-order
    sequence, which is where the iterator stands when it points at it. */
module Lookup {
  import opened AvlTree

  datatype Dir = GoLeft | GoRight

  /** A node pointer as the iterator and the searches see it: null, the
      container's end sentinel (endElem), or a node reached by a path. */
  datatype Ptr = Nil | EndElem | At(path: seq<Dir>)

  /** The child pointer in one direction; a null pointer has no children. */
  function Child(t: Tree, d: Dir): Tree {
    if t.Leaf? then Leaf else if d == GoLeft then t.left else t.right
  }

  /** The subtree found by following a path from t (Leaf once it runs off). */
  function Sub(t: Tree, p: seq<Dir>): Tree
    decreases |p|
  {
    if p == [] then t else Sub(Child(t, p[0]), p[1..])
  }

  predicate IsNodePath(t: Tree, p: seq<Dir>) {
    Sub(t, p).Node?
  }

  /** The key of the node a path leads to (dereferencing an iterator). */
  function KeyAt(t: Tree, p: seq<Dir>): int
    requires IsNodePath(t, p)
  {
    Sub(t, p).key
  }

  /** The number of in-order keys that come before the subtree at p. */
  ghost function Offset(t: Tree, p: seq<Dir>): nat
    decreases |p|
  {
    if p == [] || t.Leaf? then 0
    else if p[0] == GoLeft then Offset(t.left, p[1..])
    else |InOrder(t.left)| + 1 + Offset(t.right, p[1..])
  }

  /** The in-order index of the node at p. */
  ghost function Rank(t: Tree, p: seq<Dir>): nat
    requires IsNodePath(t, p)
  {
    Offset(t, p) + |InOrder(Sub(t, p).left)|
  }

  /** Taking one more step from a node: the subtree is that node's child,
      and the offset grows by the left part and the node when going right. */
  lemma {:induction false} SubAppend(t: Tree, p: seq<Dir>, d: Dir)
    ensures Sub(t, p + [d]) == Child(Sub(t, p), d)
    ensures IsNodePath(t, p) ==>
              Offset(t, p + [d]) ==
                Offset(t, p) + (if d == GoLeft then 0 else |InOrder(Sub(t, p).left)| + 1)
    decreases |p|
  {
    if p == [] {
      assert [] + [d] == [d];
      assert [d][1..] == [];
    } else {
      assert (p + [d])[0] == p[0] && (p + [d])[1..] == p[1..] + [d];
      if t.Leaf? {
        SubLeaf(p[1..] + [d]);
        SubLeaf(p[1..]);
      } else {
        SubAppend(Child(t, p[0]), p[1..], d);
      }
    }
  }

  lemma {:induction false} SubLeaf(p: seq<Dir>)
    ensures Sub(Leaf, p) == Leaf
    decreases |p|
  {
    if p != [] { SubLeaf(p[1..]); }
  }

  /** A node without a left child is the first of its subtree: its rank is
      the offset of that subtree. */
  lemma FirstOfSubtree(t: Tree, q: seq<Dir>)
    requires IsNodePath(t, q) && Sub(t, q).left.Leaf?
    ensures Rank(t, q) == Offset(t, q)
  {
  }

  /** A node without a right child is the last of its subtree: its rank is
      one less than the offset just past that subtree. */
  lemma LastOfSubtree(t: Tree, q: seq<Dir>)
    requires IsNodePath(t, q) && Sub(t, q).right.Leaf?
    ensures Rank(t, q) + 1 == Offset(t, q) + |InOrder(Sub(t, q))|
  {
  }

  /** The node at a path is the one at its rank in the in-order sequence. */
  lemma {:induction false} RankKey(t: Tree, p: seq<Dir>)
    requires IsNodePath(t, p)
    ensures Rank(t, p) < |InOrder(t)|
    ensures InOrder(t)[Rank(t, p)] == KeyAt(t, p)
    decreases |p|
  {
    if p != [] {
      if t.Leaf? {
        SubLeaf(p[1..]);
      } else {
        RankKey(Child(t, p[0]), p[1..]);
        assert InOrder(t) == InOrder(t.left) + [t.key] + InOrder(t.right);
      }
    }
  }

  lemma SortedNext(s: seq<int>, i: nat, x: int)
    requires StrictlySorted(s) && i + 1 < |s| && x in s && s[i] < x
    ensures s[i + 1] <= x
  {
    var j :| 0 <= j < |s| && s[j] == x;
  }

  /** In a search tree, consecutive ranks hold neighbouring keys: the key at
      rank i + 1 is the next larger stored key after the key at rank i. */
  lemma NextRankIsNextKey(t: Tree, p: seq<Dir>, q: seq<Dir>)
    requires Ordered(t) && IsNodePath(t, p) && IsNodePath(t, q)
    requires Rank(t, q) == Rank(t, p) + 1
    ensures KeyAt(t, p) < KeyAt(t, q)
    ensures NoneBetween(Keys(t), KeyAt(t, p), KeyAt(t, q))
  {
    RankKey(t, p);
    RankKey(t, q);
    OrderedIffSorted(t);
    InOrderKeys(t);
    forall x | x in Keys(t) && KeyAt(t, p) < x ensures KeyAt(t, q) <= x {
      SortedNext(InOrder(t), Rank(t, p), x);
    }
  }

  /** In a search tree, the last rank holds the largest key. */
  lemma LastRankIsMax(t: Tree, p: seq<Dir>)
    requires Ordered(t) && IsNodePath(t, p)
    ensures Rank(t, p) == |InOrder(t)| - 1 <==> AllAtMost(Keys(t), KeyAt(t, p))
  {
    var s := InOrder(t);
    RankKey(t, p);
    OrderedIffSorted(t);
    InOrderKeys(t);
    if Rank(t, p) == |s| - 1 {
      forall x | x in Keys(t) ensures x <= KeyAt(t, p) {
        var j :| 0 <= j < |s| && s[j] == x;
      }
    } else {
      assert s[Rank(t, p) + 1] in Keys(t);
    }
  }

  /** In a search tree, rank 0 holds the smallest key. */
  lemma FirstRankIsMin(t: Tree, p: seq<Dir>)
    requires Ordered(t) && IsNodePath(t, p)
    ensures Rank(t, p) == 0 <==> AllAtLeast(Keys(t), KeyAt(t, p))
  {
    var s := InOrder(t);
    RankKey(t, p);
    OrderedIffSorted(t);
    InOrderKeys(t);
    if Rank(t, p) == 0 {
      forall x | x in Keys(t) ensures KeyAt(t, p) <= x {
        var j :| 0 <= j < |s| && s[j] == x;
      }
    } else {
      assert s[Rank(t, p) - 1] in Keys(t);
    }
  }

  /** FindMin: follow left children to the leftmost node, which has rank 0,
      holds the smallest key of a search tree, and has no left child. */
  function FindMin(t: Tree): (p: seq<Dir>)
    requires t.Node?
    ensures IsNodePath(t, p) && Sub(t, p).left.Leaf?
    ensures Rank(t, p) == 0 && KeyAt(t, p) in Keys(t)
    ensures Ordered(t) ==> AllAtLeast(Keys(t), KeyAt(t, p))
    decreases t
  {
    if t.left.Leaf? then []
    else
      var q := FindMin(t.left);
      assert ([GoLeft] + q)[0] == GoLeft && ([GoLeft] + q)[1..] == q;
      [GoLeft] + q
  }

  /** FindMax: follow right children to the rightmost node, which has the
      last rank, holds the largest key of a search tree, and has no right
      child. */
  function FindMax(t: Tree): (p: seq<Dir>)
    requires t.Node?
    ensures IsNodePath(t, p) && Sub(t, p).right.Leaf?
    ensures Rank(t, p) == |InOrder(t)| - 1 && KeyAt(t, p) in Keys(t)
    ensures Ordered(t) ==> AllAtMost(Keys(t), KeyAt(t, p))
    decreases t
  {
    if t.right.Leaf? then []
    else
      var q := FindMax(t.right);
      assert ([GoRight] + q)[0] == GoRight && ([GoRight] + q)[1..] == q;
      [GoRight] + q
  }

  /** One step down prepended to a search result. */
  function Below(d: Dir, r: Ptr): Ptr {
    if r.At? then At([d] + r.path) else r
  }

  /** FindVal, the lower-bound search: discard a node whose key is less than
      the target and go right; on a larger key go left, keeping the node as
      the answer unless the left subtree yields one; stop on an equal key.
      The result is a node whose key is not less than the target and, in a
      search tree, the smallest such key; it is null exactly when every key
      is less than the target. */
  function FindVal(t: Tree, key: int): (r: Ptr)
    ensures r != EndElem
    ensures r.At? ==> IsNodePath(t, r.path) && key <= KeyAt(t, r.path) && KeyAt(t, r.path) in Keys(t)
    ensures (forall x :: x in Keys(t) ==> x < key) ==> r == Nil
    ensures Ordered(t) && r == Nil ==> forall x :: x in Keys(t) ==> x < key
    ensures Ordered(t) && r.At? ==>
              forall x :: x in Keys(t) && key <= x ==> KeyAt(t, r.path) <= x
    decreases t
  {
    if t.Leaf? then Nil
    else if t.key < key then
      var res := FindVal(t.right, key);
      assert res.At? ==> ([GoRight] + res.path)[0] == GoRight && ([GoRight] + res.path)[1..] == res.path;
      Below(GoRight, res)
    else if key < t.key then
      var res := FindVal(t.left, key);
      assert res.At? ==> ([GoLeft] + res.path)[0] == GoLeft && ([GoLeft] + res.path)[1..] == res.path;
      if res == Nil then At([]) else Below(GoLeft, res)
    else
      At([])
  }
}
