/** The balancing engine of hset::Set: height recomputation, the two
    rotations, the single rebalancing step BalanceNode, and RemoveMin, the
    minimum extraction used by erase and by teardown.

    Each source routine takes a subtree root, relinks nodes in place and
    returns the root of the replacement subtree; here each one is a function
    from the old subtree value to the new one. Subtrees a routine does not
    relink are passed through as the very same values, which is how "all
    other nodes keep their fields" is stated. */
module Balance {
  import opened AvlTree

  /** A node's cached height is correct for its current children. */
  ghost predicate HeightFresh(t: Tree) {
    t.Node? && t.height == Max(Height(t.left), Height(t.right)) + 1
  }

  /** HeightRecalc: rewrites only the node's own cached height. */
  function HeightRecalc(t: Tree): (r: Tree)
    requires t.Node?
    ensures HeightFresh(r)
    ensures r.left == t.left && r.key == t.key && r.right == t.right
    ensures HeightsCached(t.left) && HeightsCached(t.right) ==> HeightsCached(r)
  {
    t.(height := Max(Height(t.left), Height(t.right)) + 1)
  }

  /** RotateRight: the left child becomes the subtree root, the old root
      becomes its right child and takes over the left child's right subtree.
      Only the two moved nodes get new heights. */
  function RotateRight(t: Tree): (r: Tree)
    requires t.Node? && t.left.Node?
    ensures r.Node? && r.right.Node?
    ensures InOrder(r) == InOrder(t) && Keys(r) == Keys(t)
    ensures Ordered(t) ==> Ordered(r)
    ensures r.key == t.left.key && r.right.key == t.key
    ensures r.left == t.left.left && r.right.left == t.left.right && r.right.right == t.right
    ensures HeightFresh(r) && HeightFresh(r.right)
    ensures HeightsCached(t.left.left) && HeightsCached(t.left.right) && HeightsCached(t.right) ==>
              HeightsCached(r)
  {
    var leftNode := t.left;
    var cur := HeightRecalc(t.(left := leftNode.right));
    var r := HeightRecalc(leftNode.(right := cur));
    assert Ordered(t) ==> Ordered(r) by {
      if Ordered(t) {
        assert Keys(leftNode) == Keys(leftNode.left) + {leftNode.key} + Keys(leftNode.right);
        assert leftNode.key < t.key && Ordered(leftNode);
        forall x | x in Keys(leftNode.right) ensures x < t.key && leftNode.key < x {
          assert x in Keys(leftNode);
        }
        assert cur == Node(leftNode.right, t.key, cur.height, t.right);
        assert Ordered(cur);
        assert Keys(cur) == Keys(leftNode.right) + {t.key} + Keys(t.right);
        assert r == Node(leftNode.left, leftNode.key, r.height, cur);
      }
    }
    r
  }

  /** RotateLeft: the mirror image of RotateRight. */
  function RotateLeft(t: Tree): (r: Tree)
    requires t.Node? && t.right.Node?
    ensures r.Node? && r.left.Node?
    ensures InOrder(r) == InOrder(t) && Keys(r) == Keys(t)
    ensures Ordered(t) ==> Ordered(r)
    ensures r.key == t.right.key && r.left.key == t.key
    ensures r.left.left == t.left && r.left.right == t.right.left && r.right == t.right.right
    ensures HeightFresh(r) && HeightFresh(r.left)
    ensures HeightsCached(t.left) && HeightsCached(t.right.left) && HeightsCached(t.right.right) ==>
              HeightsCached(r)
  {
    var rightNode := t.right;
    var cur := HeightRecalc(t.(right := rightNode.left));
    var r := HeightRecalc(rightNode.(left := cur));
    assert Ordered(t) ==> Ordered(r) by {
      if Ordered(t) {
        assert Keys(rightNode) == Keys(rightNode.left) + {rightNode.key} + Keys(rightNode.right);
        assert t.key < rightNode.key && Ordered(rightNode);
        forall x | x in Keys(rightNode.left) ensures t.key < x && x < rightNode.key {
          assert x in Keys(rightNode);
        }
        assert cur == Node(t.left, t.key, cur.height, rightNode.left);
        assert Ordered(cur);
        assert Keys(cur) == Keys(t.left) + {t.key} + Keys(rightNode.left);
        assert r == Node(cur, rightNode.key, r.height, rightNode.right);
      }
    }
    r
  }

  /** The right side of cur is two or more higher: when the right child
      leans left (the right-left case) it is first rotated right, then the
      node is rotated left. */
  function FixRightHeavy(cur: Tree): (r: Tree)
    requires cur.Node? && cur.right.Node? && HeightsCached(cur.left) && HeightsCached(cur.right)
    ensures r.Node? && HeightsCached(r)
    ensures InOrder(r) == InOrder(cur) && Keys(r) == Keys(cur)
    ensures Ordered(cur) ==> Ordered(r)
  {
    var rn := cur.right;
    if Height(rn.left) > Height(rn.right) then
      CachedHeightIsDepth(rn.right);
      assert HeightsCached(rn.left) && HeightsCached(rn.right);
      var rr := RotateRight(rn);
      assert HeightsCached(rr);
      RotateLeft(cur.(right := rr))
    else
      RotateLeft(cur)
  }

  /** The left side of cur is two or more higher: the mirror image of
      FixRightHeavy. */
  function FixLeftHeavy(cur: Tree): (r: Tree)
    requires cur.Node? && cur.left.Node? && HeightsCached(cur.left) && HeightsCached(cur.right)
    ensures r.Node? && HeightsCached(r)
    ensures InOrder(r) == InOrder(cur) && Keys(r) == Keys(cur)
    ensures Ordered(cur) ==> Ordered(r)
  {
    var ln := cur.left;
    if Height(ln.left) < Height(ln.right) then
      CachedHeightIsDepth(ln.left);
      assert HeightsCached(ln.left) && HeightsCached(ln.right);
      var ll := RotateLeft(ln);
      assert HeightsCached(ll);
      RotateRight(cur.(left := ll))
    else
      RotateRight(cur)
  }

  /** BalanceNode: recompute the node's height, then, if one side is two
      or more higher, rotate (twice for the zig-zag cases). The caller
      guarantees correct cached heights below the node, which is what makes
      the child dereferences of the source safe. */
  function BalanceNode(t: Tree): (r: Tree)
    requires t.Node? && HeightsCached(t.left) && HeightsCached(t.right)
    ensures r.Node? && HeightsCached(r)
    ensures InOrder(r) == InOrder(t) && Keys(r) == Keys(t)
    ensures Ordered(t) ==> Ordered(r)
    ensures IsAvl(t) ==> r == t
  {
    CachedHeightIsDepth(t.left);
    CachedHeightIsDepth(t.right);
    var cur := HeightRecalc(t);
    if BalFact(cur) >= 2 then FixRightHeavy(cur)
    else if BalFact(cur) <= -2 then FixLeftHeavy(cur)
    else cur
  }

  /** BalanceNode restores the AVL rule: given AVL children whose heights
      differ by at most 2, the result is an AVL tree. When no rotation is
      needed its height is one more than the higher child; after a rotation
      it is the higher child's height or one more. */
  lemma BalanceNodeAvl(t: Tree)
    requires t.Node? && IsAvl(t.left) && IsAvl(t.right)
    requires -2 <= BalFact(t) <= 2
    ensures IsAvl(BalanceNode(t))
    ensures -1 <= BalFact(t) <= 1 ==>
              Height(BalanceNode(t)) == Max(Height(t.left), Height(t.right)) + 1
    ensures Max(Height(t.left), Height(t.right)) <= Height(BalanceNode(t))
              <= Max(Height(t.left), Height(t.right)) + 1
  {
    var l, r := t.left, t.right;
    CachedHeightIsDepth(l);
    CachedHeightIsDepth(r);
    var c := HeightRecalc(t);
    if BalFact(t) >= 2 {
      CachedHeightIsDepth(r.left);
      CachedHeightIsDepth(r.right);
      if Height(r.left) > Height(r.right) {
        RightLeftCaseAvl(c);
      } else {
        RightRightCaseAvl(c);
      }
    } else if BalFact(t) <= -2 {
      CachedHeightIsDepth(l.left);
      CachedHeightIsDepth(l.right);
      if Height(l.left) < Height(l.right) {
        LeftRightCaseAvl(c);
      } else {
        LeftLeftCaseAvl(c);
      }
    }
  }

  /** Right child two higher, its right side at least as high: one left
      rotation balances the node. */
  lemma RightRightCaseAvl(t: Tree)
    requires t.Node? && t.right.Node? && IsAvl(t.left) && IsAvl(t.right)
    requires BalFact(t) == 2 && Height(t.right.left) <= Height(t.right.right)
    ensures IsAvl(RotateLeft(t))
    ensures Height(t.right) <= Height(RotateLeft(t)) <= Height(t.right) + 1
  {
    var r := t.right;
    CachedHeightIsDepth(t.left);
    CachedHeightIsDepth(r.left);
    CachedHeightIsDepth(r.right);
    var res := RotateLeft(t);
    assert IsAvl(res.left);
  }

  /** Left child two higher, its left side at least as high: one right
      rotation balances the node. */
  lemma LeftLeftCaseAvl(t: Tree)
    requires t.Node? && t.left.Node? && IsAvl(t.left) && IsAvl(t.right)
    requires BalFact(t) == -2 && Height(t.left.left) >= Height(t.left.right)
    ensures IsAvl(RotateRight(t))
    ensures Height(t.left) <= Height(RotateRight(t)) <= Height(t.left) + 1
  {
    var l := t.left;
    CachedHeightIsDepth(t.right);
    CachedHeightIsDepth(l.left);
    CachedHeightIsDepth(l.right);
    var res := RotateRight(t);
    assert IsAvl(res.right);
  }

  /** Right child two higher with its left side higher: rotate the right
      child rightward first, then the node leftward. */
  lemma RightLeftCaseAvl(t: Tree)
    requires t.Node? && t.right.Node? && IsAvl(t.left) && IsAvl(t.right)
    requires BalFact(t) == 2 && Height(t.right.left) > Height(t.right.right)
    ensures t.right.left.Node?
    ensures IsAvl(RotateLeft(t.(right := RotateRight(t.right))))
    ensures Height(RotateLeft(t.(right := RotateRight(t.right)))) == Height(t.right)
  {
    var r := t.right;
    CachedHeightIsDepth(t.left);
    CachedHeightIsDepth(r.right);
    CachedHeightIsDepth(r.left);
    var rl := r.left;
    CachedHeightIsDepth(rl.left);
    CachedHeightIsDepth(rl.right);
    var h := Height(t.left);
    assert Height(r) == h + 2 && Height(rl) == h + 1 && Height(r.right) == h;
    assert IsAvl(rl) && IsAvl(rl.left) && IsAvl(rl.right) && IsAvl(r.right);
    assert h - 1 <= Height(rl.left) <= h && h - 1 <= Height(rl.right) <= h;
    var rr := RotateRight(r);
    var res := RotateLeft(t.(right := rr));
    assert res.left.left == t.left && res.left.right == rl.left;
    assert res.right == rr.right && rr.right.left == rl.right && rr.right.right == r.right;
    assert IsAvl(res.left);
    assert IsAvl(res.right);
  }

  /** Left child two higher with its right side higher: rotate the left
      child leftward first, then the node rightward. */
  lemma LeftRightCaseAvl(t: Tree)
    requires t.Node? && t.left.Node? && IsAvl(t.left) && IsAvl(t.right)
    requires BalFact(t) == -2 && Height(t.left.left) < Height(t.left.right)
    ensures t.left.right.Node?
    ensures IsAvl(RotateRight(t.(left := RotateLeft(t.left))))
    ensures Height(RotateRight(t.(left := RotateLeft(t.left)))) == Height(t.left)
  {
    var l := t.left;
    CachedHeightIsDepth(t.right);
    CachedHeightIsDepth(l.left);
    CachedHeightIsDepth(l.right);
    var lr := l.right;
    CachedHeightIsDepth(lr.left);
    CachedHeightIsDepth(lr.right);
    var h := Height(t.right);
    assert Height(l) == h + 2 && Height(lr) == h + 1 && Height(l.left) == h;
    assert IsAvl(lr) && IsAvl(lr.left) && IsAvl(lr.right) && IsAvl(l.left);
    assert h - 1 <= Height(lr.left) <= h && h - 1 <= Height(lr.right) <= h;
    var ll := RotateLeft(l);
    var res := RotateRight(t.(left := ll));
    assert res.right.right == t.right && res.right.left == lr.right;
    assert res.left == ll.left && ll.left.right == lr.left && ll.left.left == l.left;
    assert IsAvl(res.left);
    assert IsAvl(res.right);
  }

  /** RemoveMin: unlink the leftmost node of a non-empty subtree and
      rebalance on the way back up. The result holds the in-order keys
      without the first one. */
  function RemoveMin(t: Tree): (r: Tree)
    requires t.Node? && HeightsCached(t)
    ensures HeightsCached(r)
    ensures InOrder(r) == InOrder(t)[1..]
    ensures Keys(r) + {InOrder(t)[0]} == Keys(t)
    ensures Ordered(t) ==> Ordered(r) && InOrder(t)[0] !in Keys(r)
    decreases t
  {
    if t.left.Leaf? then t.right
    else
      var l' := RemoveMin(t.left);
      var t' := t.(left := l');
      assert InOrder(t)[0] == InOrder(t.left)[0];
      assert InOrder(t') == InOrder(t)[1..] by {
        assert InOrder(t) == InOrder(t.left) + [t.key] + InOrder(t.right);
        assert InOrder(t') == InOrder(t.left)[1..] + [t.key] + InOrder(t.right);
      }
      BalanceNode(t')
  }

  /** RemoveMin keeps the AVL rule and lowers the height by at most one. */
  lemma {:induction false} RemoveMinAvl(t: Tree)
    requires t.Node? && IsAvl(t)
    ensures IsAvl(RemoveMin(t))
    ensures Height(t) - 1 <= Height(RemoveMin(t)) <= Height(t)
  {
    CachedHeightIsDepth(t.left);
    CachedHeightIsDepth(t.right);
    if t.left.Node? {
      RemoveMinAvl(t.left);
      BalanceNodeAvl(t.(left := RemoveMin(t.left)));
    }
  }
}
