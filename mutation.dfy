/** What one call of the recursive insert and remove of hset::Set promises
    about the subtree it returns, and the proof that each recursion step
    keeps that promise. The recursive methods themselves are
    Hset.Set.InsertImpl and Hset.Set.RemoveImpl, which also keep the
    container's node count `sz`. */
module Mutation {
  import opened AvlTree
  import opened Balance
  import opened Lookup

  /** InsertImpl(cur, newKey) may return r: r holds exactly the keys of cur
      and newKey, has at most one node more, keeps search order and the AVL
      rule (growing by at most one level), adds a node exactly when newKey
      was absent, and leaves the subtree untouched when it was present. */
  ghost predicate InsertPost(cur: Tree, newKey: int, r: Tree) {
    r.Node? && HeightsCached(r) &&
    Keys(r) == Keys(cur) + {newKey} &&
    |InOrder(cur)| <= |InOrder(r)| <= |InOrder(cur)| + 1 &&
    (Ordered(cur) ==> Ordered(r)) &&
    (Ordered(cur) ==> |InOrder(r)| == |InOrder(cur)| + (if newKey in Keys(cur) then 0 else 1)) &&
    (IsAvl(cur) ==> IsAvl(r) && Height(cur) <= Height(r) <= Height(cur) + 1) &&
    (IsAvl(cur) && Ordered(cur) && newKey in Keys(cur) ==> r == cur)
  }

  /** RemoveImpl(cur, delKey) may return r: r has at most one node fewer,
      keeps search order and the AVL rule (shrinking by at most one level),
      holds exactly the keys of cur without delKey, loses a node exactly when
      delKey was present, and is cur itself when delKey was absent. */
  ghost predicate RemovePost(cur: Tree, delKey: int, r: Tree) {
    HeightsCached(r) &&
    |InOrder(cur)| - 1 <= |InOrder(r)| <= |InOrder(cur)| &&
    (Ordered(cur) ==> Ordered(r) && Keys(r) == Keys(cur) - {delKey}) &&
    (Ordered(cur) ==> |InOrder(r)| == |InOrder(cur)| - (if delKey in Keys(cur) then 1 else 0)) &&
    (IsAvl(cur) ==> IsAvl(r) && Height(cur) - 1 <= Height(r) <= Height(cur)) &&
    (IsAvl(cur) && Ordered(cur) && delKey !in Keys(cur) ==> r == cur)
  }

  /** The new node InsertImpl allocates in an empty slot. */
  lemma InsertIntoLeaf(newKey: int)
    ensures InsertPost(Leaf, newKey, Node(Leaf, newKey, 1, Leaf))
  {
    assert InOrder(Node(Leaf, newKey, 1, Leaf)) == [newKey];
  }

  /** An equal key stops the descent; rebalancing the node changes nothing
      in an AVL tree. */
  lemma InsertFound(cur: Tree, newKey: int)
    requires cur.Node? && HeightsCached(cur) && newKey == cur.key
    ensures InsertPost(cur, newKey, BalanceNode(cur))
  {
    if IsAvl(cur) {
      CachedHeightIsDepth(cur.left);
      CachedHeightIsDepth(cur.right);
    }
  }

  /** Relinking an insert result as the left child: the node gains exactly
      newKey, and stays a search tree. */
  lemma InsertLeftKeys(cur: Tree, newKey: int, l: Tree)
    requires cur.Node? && newKey < cur.key && InsertPost(cur.left, newKey, l)
    ensures Keys(cur.(left := l)) == Keys(cur) + {newKey}
    ensures |InOrder(cur.(left := l))| == |InOrder(l)| + 1 + |InOrder(cur.right)|
    ensures Ordered(cur) ==> Ordered(cur.(left := l))
    ensures Ordered(cur) ==> (newKey in Keys(cur) <==> newKey in Keys(cur.left))
  {
    if Ordered(cur) {
      assert forall x :: x in Keys(l) ==> x in Keys(cur.left) || x == newKey;
    }
  }

  /** Relinking an insert result as the right child. */
  lemma InsertRightKeys(cur: Tree, newKey: int, rt: Tree)
    requires cur.Node? && cur.key < newKey && InsertPost(cur.right, newKey, rt)
    ensures Keys(cur.(right := rt)) == Keys(cur) + {newKey}
    ensures |InOrder(cur.(right := rt))| == |InOrder(cur.left)| + 1 + |InOrder(rt)|
    ensures Ordered(cur) ==> Ordered(cur.(right := rt))
    ensures Ordered(cur) ==> (newKey in Keys(cur) <==> newKey in Keys(cur.right))
  {
    if Ordered(cur) {
      assert forall x :: x in Keys(rt) ==> x in Keys(cur.right) || x == newKey;
    }
  }

  /** Inserting into the left subtree, then rebalancing the node. */
  lemma InsertLeftStep(cur: Tree, newKey: int, l: Tree)
    requires cur.Node? && HeightsCached(cur) && newKey < cur.key
    requires InsertPost(cur.left, newKey, l)
    ensures InsertPost(cur, newKey, BalanceNode(cur.(left := l)))
  {
    InsertLeftKeys(cur, newKey, l);
    if IsAvl(cur) {
      CachedHeightIsDepth(cur.left);
      CachedHeightIsDepth(cur.right);
      BalanceNodeAvl(cur.(left := l));
    }
  }

  /** Inserting into the right subtree, then rebalancing the node. */
  lemma InsertRightStep(cur: Tree, newKey: int, rt: Tree)
    requires cur.Node? && HeightsCached(cur) && cur.key < newKey
    requires InsertPost(cur.right, newKey, rt)
    ensures InsertPost(cur, newKey, BalanceNode(cur.(right := rt)))
  {
    InsertRightKeys(cur, newKey, rt);
    if IsAvl(cur) {
      CachedHeightIsDepth(cur.left);
      CachedHeightIsDepth(cur.right);
      BalanceNodeAvl(cur.(right := rt));
    }
  }

  /** Relinking a remove result as the left child: the node loses exactly
      delKey, and stays a search tree. */
  lemma RemoveLeftKeys(cur: Tree, delKey: int, l: Tree)
    requires cur.Node? && delKey < cur.key && RemovePost(cur.left, delKey, l)
    ensures |InOrder(cur.(left := l))| == |InOrder(l)| + 1 + |InOrder(cur.right)|
    ensures Ordered(cur) ==> Ordered(cur.(left := l)) && Keys(cur.(left := l)) == Keys(cur) - {delKey}
    ensures Ordered(cur) ==> (delKey in Keys(cur) <==> delKey in Keys(cur.left))
  {
  }

  /** Relinking a remove result as the right child. */
  lemma RemoveRightKeys(cur: Tree, delKey: int, rt: Tree)
    requires cur.Node? && cur.key < delKey && RemovePost(cur.right, delKey, rt)
    ensures |InOrder(cur.(right := rt))| == |InOrder(cur.left)| + 1 + |InOrder(rt)|
    ensures Ordered(cur) ==> Ordered(cur.(right := rt)) && Keys(cur.(right := rt)) == Keys(cur) - {delKey}
    ensures Ordered(cur) ==> (delKey in Keys(cur) <==> delKey in Keys(cur.right))
  {
  }

  /** Removing from the left subtree, then rebalancing the node. */
  lemma RemoveLeftStep(cur: Tree, delKey: int, l: Tree)
    requires cur.Node? && HeightsCached(cur) && delKey < cur.key
    requires RemovePost(cur.left, delKey, l)
    ensures RemovePost(cur, delKey, BalanceNode(cur.(left := l)))
  {
    RemoveLeftKeys(cur, delKey, l);
    if IsAvl(cur) {
      CachedHeightIsDepth(cur.left);
      CachedHeightIsDepth(cur.right);
      BalanceNodeAvl(cur.(left := l));
    }
  }

  /** Removing from the right subtree, then rebalancing the node. */
  lemma RemoveRightStep(cur: Tree, delKey: int, rt: Tree)
    requires cur.Node? && HeightsCached(cur) && cur.key < delKey
    requires RemovePost(cur.right, delKey, rt)
    ensures RemovePost(cur, delKey, BalanceNode(cur.(right := rt)))
  {
    RemoveRightKeys(cur, delKey, rt);
    if IsAvl(cur) {
      CachedHeightIsDepth(cur.left);
      CachedHeightIsDepth(cur.right);
      BalanceNodeAvl(cur.(right := rt));
    }
  }

  /** The matching node has no right child: its left child replaces it. */
  lemma RemoveMatchNoRight(cur: Tree)
    requires cur.Node? && HeightsCached(cur) && cur.right.Leaf?
    ensures RemovePost(cur, cur.key, cur.left)
  {
    CachedHeightIsDepth(cur.left);
    if Ordered(cur) {
      assert cur.key !in Keys(cur.left);
    }
  }

  /** In a search tree the root's key is in neither subtree, so removing it
      leaves exactly the keys of the two children. */
  lemma KeysWithoutRoot(t: Tree)
    requires t.Node? && Ordered(t)
    ensures Keys(t) - {t.key} == Keys(t.left) + Keys(t.right)
  {
    assert t.key !in Keys(t.left) && t.key !in Keys(t.right);
  }

  /** The node that replaces a matched node with two children: the minimum
      of the right subtree, over the node's left child and the right subtree
      with that minimum unlinked by RemoveMin. */
  ghost function Spliced(cur: Tree): Tree
    requires cur.Node? && HeightsCached(cur) && cur.right.Node?
  {
    var m := Sub(cur.right, FindMin(cur.right));
    Node(cur.left, m.key, m.height, RemoveMin(cur.right))
  }

  /** FindMin and RemoveMin agree: FindMin's node holds the first key in
      in-order, and what RemoveMin leaves is every other key, all of them
      greater in a search tree. */
  lemma MinAndRest(t: Tree)
    requires t.Node? && HeightsCached(t)
    ensures KeyAt(t, FindMin(t)) == InOrder(t)[0]
    ensures Keys(RemoveMin(t)) + {KeyAt(t, FindMin(t))} == Keys(t)
    ensures Ordered(t) ==> AllAtLeast(Keys(RemoveMin(t)), KeyAt(t, FindMin(t)) + 1)
  {
    RankKey(t, FindMin(t));
    var lo := KeyAt(t, FindMin(t));
    if Ordered(t) {
      forall x | x in Keys(RemoveMin(t)) ensures lo < x {
        assert x in Keys(t) && x != lo;
      }
    }
  }

  /** The splice holds the keys of both children of the matched node, and
      one node fewer than it. */
  lemma SplicedKeys(cur: Tree)
    requires cur.Node? && HeightsCached(cur) && cur.right.Node?
    ensures HeightsCached(Spliced(cur).left) && HeightsCached(Spliced(cur).right)
    ensures |InOrder(Spliced(cur))| == |InOrder(cur)| - 1
    ensures Keys(Spliced(cur)) == Keys(cur.left) + Keys(cur.right)
  {
    var t := Spliced(cur);
    MinAndRest(cur.right);
    assert InOrder(t) ==
           InOrder(cur.left) + [InOrder(cur.right)[0]] + InOrder(cur.right)[1..];
  }

  /** The splice of a search-tree node is a search tree. */
  lemma SplicedOrdered(cur: Tree)
    requires cur.Node? && HeightsCached(cur) && cur.right.Node? && Ordered(cur)
    ensures Ordered(Spliced(cur))
  {
    var lo := KeyAt(cur.right, FindMin(cur.right));
    var t := Spliced(cur);
    MinAndRest(cur.right);
    SplicedKeys(cur);
    assert lo in Keys(cur.right) && cur.key < lo;
    assert forall x :: x in Keys(t.right) ==> lo < x;
    assert forall x :: x in Keys(cur.left) ==> x < lo;
  }

  /** The splice of an AVL node, rebalanced, is AVL and at most one level
      lower. */
  lemma SplicedAvl(cur: Tree)
    requires cur.Node? && IsAvl(cur) && cur.right.Node?
    ensures IsAvl(BalanceNode(Spliced(cur)))
    ensures Height(cur) - 1 <= Height(BalanceNode(Spliced(cur))) <= Height(cur)
  {
    CachedHeightIsDepth(cur.left);
    CachedHeightIsDepth(cur.right);
    RemoveMinAvl(cur.right);
    BalanceNodeAvl(Spliced(cur));
  }

  /** The matching node has a right child: the minimum of the right subtree
      is unlinked by RemoveMin and put in the node's place, then the node is
      rebalanced. */
  lemma RemoveMatchSplice(cur: Tree)
    requires cur.Node? && HeightsCached(cur) && cur.right.Node?
    ensures RemovePost(cur, cur.key, BalanceNode(Spliced(cur)))
  {
    SplicedKeys(cur);
    if Ordered(cur) {
      SplicedOrdered(cur);
      KeysWithoutRoot(cur);
    }
    if IsAvl(cur) { SplicedAvl(cur); }
  }
}
