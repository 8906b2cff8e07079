/** hset::Set specialised to int keys: the container object, whose fields
    `root` and `sz` its methods update, with the recursive insert and
    remove, the iterator steps over node positions, teardown, and the
    public operations. The end sentinel endElem is the distinguished
    pointer value EndElem. */
module Hset {
  import opened AvlTree
  import opened Balance
  import opened Lookup
  import opened Mutation

  class Set {
    var root: Tree
    var sz: nat

    /** The container invariant: a search tree obeying the AVL rule with
        correct cached heights, and `sz` counting its nodes. */
    ghost predicate Valid()
      reads this
    {
      IsAvl(root) && Ordered(root) && sz == |InOrder(root)|
    }

    /** The set of keys the container holds. */
    ghost function Elements(): set<int>
      reads this
    {
      Keys(root)
    }

    /** Set(): the empty container. */
    constructor ()
      ensures Valid() && Elements() == {} && sz == 0
    {
      root := Leaf;
      sz := 0;
    }

    /** InsertImpl: descend by comparison; an absent slot gets a new node and
        `sz` grows by one; an equal key stops the descent; every node on the
        way back is rebalanced. `cur` is a subtree of the container, so `sz`
        changes by exactly the number of nodes added to it. */
    method InsertImpl(cur: Tree, newKey: int) returns (r: Tree)
      requires HeightsCached(cur)
      modifies this`sz
      ensures InsertPost(cur, newKey, r)
      ensures sz == old(sz) + (|InOrder(r)| - |InOrder(cur)|)
      decreases cur
    {
      if cur == Leaf {
        sz := sz + 1;
        InsertIntoLeaf(newKey);
        return Node(Leaf, newKey, 1, Leaf);
      }
      if newKey < cur.key {
        var l := InsertImpl(cur.left, newKey);
        InsertLeftStep(cur, newKey, l);
        r := BalanceNode(cur.(left := l));
      } else if cur.key < newKey {
        var rt := InsertImpl(cur.right, newKey);
        InsertRightStep(cur, newKey, rt);
        r := BalanceNode(cur.(right := rt));
      } else {
        InsertFound(cur, newKey);
        r := BalanceNode(cur);
      }
    }

    /** RemoveImpl: descend by comparison, rebalancing every node on the way
        back. An absent key changes nothing. On the matching node `sz`
        shrinks by one; with no right child its left child takes its place,
        otherwise the minimum of the right subtree is unlinked by RemoveMin
        and takes the node's place over the same children. */
    method RemoveImpl(cur: Tree, delKey: int) returns (r: Tree)
      requires HeightsCached(cur) && |InOrder(cur)| <= sz
      modifies this`sz
      ensures RemovePost(cur, delKey, r)
      ensures sz == old(sz) - (|InOrder(cur)| - |InOrder(r)|)
      decreases cur
    {
      if cur == Leaf {
        return Leaf;
      }
      if delKey < cur.key {
        var l := RemoveImpl(cur.left, delKey);
        RemoveLeftStep(cur, delKey, l);
        r := BalanceNode(cur.(left := l));
      } else if cur.key < delKey {
        var rt := RemoveImpl(cur.right, delKey);
        RemoveRightStep(cur, delKey, rt);
        r := BalanceNode(cur.(right := rt));
      } else {
        sz := sz - 1;
        var leftNode, rightNode := cur.left, cur.right;
        if rightNode == Leaf {
          RemoveMatchNoRight(cur);
          return leftNode;
        }
        var newCurRoot := Sub(rightNode, FindMin(rightNode));
        var rest := RemoveMin(rightNode);
        var t := Node(leftNode, newCurRoot.key, newCurRoot.height, rest);
        assert t == Spliced(cur);
        RemoveMatchSplice(cur);
        r := BalanceNode(t);
      }
    }

    /** The descent loop of NextNode: from the node at q, follow left
        children while there is one. The node reached is the first of the
        subtree at q in in-order. */
    method Leftmost(q: seq<Dir>) returns (r: seq<Dir>)
      requires IsNodePath(root, q)
      ensures IsNodePath(root, r) && Sub(root, r).left.Leaf?
      ensures Rank(root, r) == Offset(root, q)
    {
      r := q;
      while Sub(root, r).left != Leaf
        invariant IsNodePath(root, r)
        invariant Offset(root, r) == Offset(root, q)
        decreases Sub(root, r)
      {
        SubAppend(root, r, GoLeft);
        r := r + [GoLeft];
      }
      FirstOfSubtree(root, r);
    }

    /** The descent loop of PrevNode: from the node at q, follow right
        children while there is one. The node reached is the last of the
        subtree at q in in-order. */
    method Rightmost(q: seq<Dir>) returns (r: seq<Dir>)
      requires IsNodePath(root, q)
      ensures IsNodePath(root, r) && Sub(root, r).right.Leaf?
      ensures Rank(root, r) + 1 == Offset(root, q) + |InOrder(Sub(root, q))|
    {
      r := q;
      while Sub(root, r).right != Leaf
        invariant IsNodePath(root, r)
        invariant Offset(root, r) + |InOrder(Sub(root, r))| == Offset(root, q) + |InOrder(Sub(root, q))|
        decreases Sub(root, r)
      {
        SubAppend(root, r, GoRight);
        r := r + [GoRight];
      }
      LastOfSubtree(root, r);
    }

    /** NextNode: with a right child, the leftmost node of the right subtree;
        otherwise climb through parents until arriving from a left child,
        whose parent is the successor; climbing off the root yields endElem.
        endElem itself has no children and no parent, so it steps to itself. */
    method NextNode(curNode: Ptr) returns (r: Ptr)
      requires Valid()
      requires curNode == EndElem || (curNode.At? && IsNodePath(root, curNode.path))
      ensures r != Nil
      ensures curNode == EndElem ==> r == EndElem
      ensures curNode.At? ==> (r == EndElem <==> Rank(root, curNode.path) == |InOrder(root)| - 1)
      ensures r.At? ==> IsNodePath(root, r.path) && curNode.At? &&
                        Rank(root, r.path) == Rank(root, curNode.path) + 1
      ensures curNode.At? && r.At? ==>
                KeyAt(root, curNode.path) < KeyAt(root, r.path) &&
                NoneBetween(Elements(), KeyAt(root, curNode.path), KeyAt(root, r.path))
      ensures curNode.At? ==>
                (r == EndElem <==> AllAtMost(Elements(), KeyAt(root, curNode.path)))
    {
      if curNode == EndElem {
        return EndElem;
      }
      var p := curNode.path;
      assert Rank(root, p) < |InOrder(root)| by { RankKey(root, p); }
      assert Rank(root, p) == |InOrder(root)| - 1 <==> AllAtMost(Elements(), KeyAt(root, p)) by {
        LastRankIsMax(root, p);
      }
      if Sub(root, p).right != Leaf {
        SubAppend(root, p, GoRight);
        var q := Leftmost(p + [GoRight]);
        assert Rank(root, q) == Rank(root, p) + 1;
        assert Rank(root, q) < |InOrder(root)| by { RankKey(root, q); }
        assert KeyAt(root, p) < KeyAt(root, q) &&
               NoneBetween(Elements(), KeyAt(root, p), KeyAt(root, q)) by {
          NextRankIsNextKey(root, p, q);
        }
        return At(q);
      }
      if p == [] {
        // curNode is the root and has no right child
        return EndElem;
      }
      var lastNode := p;
      var cur := At(p[..|p| - 1]);
      while cur != Nil
        invariant IsNodePath(root, lastNode)
        invariant Offset(root, lastNode) + |InOrder(Sub(root, lastNode))| == Rank(root, p) + 1
        invariant cur.At? ==> lastNode != [] && cur.path == lastNode[..|lastNode| - 1]
        invariant cur == Nil ==> lastNode == []
        invariant cur != EndElem
        decreases |lastNode|
      {
        var c := cur.path;
        var d := lastNode[|lastNode| - 1];
        assert lastNode == c + [d];
        SubAppend(root, c, d);
        if d == GoLeft {
          // curNode->leftNode == lastNode
          assert Rank(root, c) == Rank(root, p) + 1;
          assert Rank(root, c) < |InOrder(root)| by { RankKey(root, c); }
          assert KeyAt(root, p) < KeyAt(root, c) &&
                 NoneBetween(Elements(), KeyAt(root, p), KeyAt(root, c)) by {
            NextRankIsNextKey(root, p, c);
          }
          return cur;
        }
        lastNode := c;
        if c == [] {
          cur := Nil;
        } else {
          cur := At(c[..|c| - 1]);
        }
      }
      // climbed off the root from its right side: curNode is the last node
      assert Sub(root, lastNode) == root && Offset(root, lastNode) == 0;
      assert Rank(root, p) == |InOrder(root)| - 1;
      return EndElem;
    }

    /** PrevNode: from endElem, the maximum of the whole tree; with a left
        child, the rightmost node of the left subtree; otherwise climb
        through parents until arriving from a right child, whose parent is
        the predecessor; climbing off the root yields null. */
    method PrevNode(curNode: Ptr) returns (r: Ptr)
      requires Valid()
      requires curNode == EndElem || (curNode.At? && IsNodePath(root, curNode.path))
      requires curNode == EndElem ==> root != Leaf
      ensures r != EndElem
      ensures curNode == EndElem ==>
                r.At? && IsNodePath(root, r.path) && Rank(root, r.path) == |InOrder(root)| - 1 &&
                AllAtMost(Elements(), KeyAt(root, r.path))
      ensures curNode.At? ==> (r == Nil <==> Rank(root, curNode.path) == 0)
      ensures curNode.At? && r.At? ==>
                IsNodePath(root, r.path) && Rank(root, r.path) + 1 == Rank(root, curNode.path)
      ensures curNode.At? && r.At? ==>
                KeyAt(root, r.path) < KeyAt(root, curNode.path) &&
                NoneBetween(Elements(), KeyAt(root, r.path), KeyAt(root, curNode.path))
      ensures curNode.At? ==>
                (r == Nil <==> AllAtLeast(Elements(), KeyAt(root, curNode.path)))
    {
      if curNode == EndElem {
        return At(FindMax(root));
      }
      var p := curNode.path;
      assert Rank(root, p) == 0 <==> AllAtLeast(Elements(), KeyAt(root, p)) by {
        FirstRankIsMin(root, p);
      }
      if Sub(root, p).left != Leaf {
        SubAppend(root, p, GoLeft);
        var q := Rightmost(p + [GoLeft]);
        assert Rank(root, q) + 1 == Rank(root, p);
        assert KeyAt(root, q) < KeyAt(root, p) &&
               NoneBetween(Elements(), KeyAt(root, q), KeyAt(root, p)) by {
          NextRankIsNextKey(root, q, p);
        }
        return At(q);
      }
      if p == [] {
        // curNode is the root and has no left child
        return Nil;
      }
      var lastNode := p;
      var cur := At(p[..|p| - 1]);
      ghost var k := |p|;
      while cur != Nil
        invariant 0 <= k <= |p| && lastNode == p[..k]
        invariant IsNodePath(root, lastNode)
        invariant Offset(root, lastNode) == Rank(root, p)
        invariant cur == (if k == 0 then Nil else At(p[..k - 1]))
        decreases k
      {
        var c := cur.path;
        var d := lastNode[|lastNode| - 1];
        assert lastNode == c + [d];
        SubAppend(root, c, d);
        if d == GoRight {
          // curNode->rightNode == lastNode
          assert Rank(root, c) + 1 == Rank(root, p);
          assert KeyAt(root, c) < KeyAt(root, p) &&
                 NoneBetween(Elements(), KeyAt(root, c), KeyAt(root, p)) by {
            NextRankIsNextKey(root, c, p);
          }
          return cur;
        }
        lastNode := c;
        k := k - 1;
        if c == [] {
          cur := Nil;
        } else {
          cur := At(c[..|c| - 1]);
        }
      }
      // climbed off the root from its left side: curNode is the first node
      assert Offset(root, lastNode) == 0;
      assert Rank(root, p) == 0;
      return Nil;
    }

    /** ClearSet: unlink the minimum `sz` times, then reset root and size. */
    method ClearSet()
      requires Valid()
      modifies this
      ensures Valid() && root == Leaf && sz == 0 && Elements() == {}
    {
      var i := 0;
      while i < sz
        invariant 0 <= i <= sz && sz == old(sz)
        invariant HeightsCached(root) && |InOrder(root)| == sz - i
      {
        root := RemoveMin(root);
        i := i + 1;
      }
      assert root == Leaf;
      root := Leaf;
      sz := 0;
    }

    /** begin(): the minimum node, or endElem when the set is empty. */
    function Begin(): (r: Ptr)
      reads this
      requires Valid()
      ensures r != Nil
      ensures r == End() <==> Elements() == {}
      ensures r.At? ==> IsNodePath(root, r.path) && Rank(root, r.path) == 0
      ensures r.At? ==> KeyAt(root, r.path) in Elements() &&
                        AllAtLeast(Elements(), KeyAt(root, r.path))
    {
      if root == Leaf then EndElem else At(FindMin(root))
    }

    /** end(): always the sentinel. */
    function End(): Ptr {
      EndElem
    }

    /** size(): the number of stored keys. */
    function Size(): (n: nat)
      reads this
      requires Valid()
      ensures n == |Elements()|
    {
      OrderedNodeCount(root);
      sz
    }

    /** empty() */
    function Empty(): (b: bool)
      reads this
      requires Valid()
      ensures b <==> Elements() == {}
    {
      sz == 0
    }

    /** find(key): the node holding key, or end() when key is absent. */
    function Find(key: int): (r: Ptr)
      reads this
      requires Valid()
      ensures r != Nil
      ensures r == End() <==> key !in Elements()
      ensures r.At? ==> IsNodePath(root, r.path) && KeyAt(root, r.path) == key
    {
      var curNode := FindVal(root, key);
      if curNode == Nil || KeyAt(root, curNode.path) < key || key < KeyAt(root, curNode.path)
      then EndElem
      else curNode
    }

    /** lower_bound(key): the node holding the smallest key not less than
        key, or end() when every key is less than key. */
    function LowerBound(key: int): (r: Ptr)
      reads this
      requires Valid()
      ensures r != Nil
      ensures r == End() <==> forall x :: x in Elements() ==> x < key
      ensures r.At? ==> IsNodePath(root, r.path) && KeyAt(root, r.path) in Elements() &&
                        key <= KeyAt(root, r.path) &&
                        forall x :: x in Elements() && key <= x ==> KeyAt(root, r.path) <= x
    {
      var curNode := FindVal(root, key);
      if curNode == Nil then EndElem else curNode
    }

    /** insert(key): adds key unless it is present; a present key leaves the
        tree exactly as it was. */
    method Insert(newKey: int)
      requires Valid()
      modifies this
      ensures Valid()
      ensures Elements() == old(Elements()) + {newKey}
      ensures sz == old(sz) + (if newKey in old(Elements()) then 0 else 1)
      ensures newKey in old(Elements()) ==> root == old(root)
    {
      root := InsertImpl(root, newKey);
    }

    /** erase(key): removes key; an absent key leaves the tree as it was. */
    method Erase(delKey: int)
      requires Valid()
      modifies this
      ensures Valid()
      ensures Elements() == old(Elements()) - {delKey}
      ensures sz == old(sz) - (if delKey in old(Elements()) then 1 else 0)
      ensures delKey !in old(Elements()) ==> root == old(root)
    {
      root := RemoveImpl(root, delKey);
    }

    /** Set(first, last): insert the keys of a range one by one; the
        initializer-list constructor delegates here. */
    constructor FromSeq(vals: seq<int>)
      ensures Valid() && Elements() == SetOf(vals)
    {
      root := Leaf;
      sz := 0;
      new;
      var i := 0;
      while i < |vals|
        invariant 0 <= i <= |vals|
        invariant Valid() && Elements() == SetOf(vals[..i])
      {
        Insert(vals[i]);
        assert vals[..i + 1] == vals[..i] + [vals[i]];
        i := i + 1;
      }
      assert vals[..i] == vals;
    }

    /** The loop shared by the copy constructor and operator=: walk `other`
        from begin() to end() with NextNode, inserting every key met. */
    method InsertFrom(other: Set)
      requires Valid() && other.Valid() && other != this
      modifies this
      ensures Valid() && Elements() == old(Elements()) + other.Elements()
    {
      ghost var t := other.root;
      ghost var keys := InOrder(t);
      var it := other.Begin();
      assert it == EndElem <==> |keys| == 0 by {
        assert t.Node? ==> |keys| > 0;
      }
      ghost var i := 0;
      while it != other.End()
        invariant Valid() && other.Valid() && other.root == t
        invariant it != Nil && 0 <= i <= |keys|
        invariant it == EndElem <==> i == |keys|
        invariant it.At? ==> IsNodePath(t, it.path) && Rank(t, it.path) == i
        invariant Elements() == old(Elements()) + SetOf(keys[..i])
        decreases |keys| - i
      {
        var key := KeyAt(other.root, it.path);
        assert key == keys[i] by { RankKey(t, it.path); }
        Insert(key);
        assert SetOf(keys[..i + 1]) == SetOf(keys[..i]) + {key} by {
          assert keys[..i + 1] == keys[..i] + [key];
        }
        it := other.NextNode(it);
        i := i + 1;
      }
      assert keys[..i] == keys;
      InOrderSet(t);
    }

    /** Forward iteration from begin() to end() with NextNode, collecting
        the keys met: it visits the keys in in-order, which for a search
        tree is the strictly increasing listing of the set. */
    method Traverse() returns (keys: seq<int>)
      requires Valid()
      ensures keys == InOrder(root)
      ensures StrictlySorted(keys) && SetOf(keys) == Elements()
    {
      ghost var all := InOrder(root);
      var it := Begin();
      assert it == EndElem <==> |all| == 0 by {
        assert root.Node? ==> |all| > 0;
      }
      keys := [];
      while it != End()
        invariant it != Nil && |keys| <= |all|
        invariant it == EndElem <==> |keys| == |all|
        invariant it.At? ==> IsNodePath(root, it.path) && Rank(root, it.path) == |keys|
        invariant keys == all[..|keys|]
        decreases |all| - |keys|
      {
        var key := KeyAt(root, it.path);
        assert key == all[|keys|] by { RankKey(root, it.path); }
        keys := keys + [key];
        it := NextNode(it);
      }
      assert keys == all;
      OrderedIffSorted(root);
      InOrderSet(root);
    }

    /** Set(const Set&): a fresh container holding the keys of other. */
    constructor Copy(other: Set)
      requires other.Valid()
      ensures Valid() && Elements() == other.Elements()
    {
      root := Leaf;
      sz := 0;
      new;
      InsertFrom(other);
    }

    /** operator=: assigning a container to itself changes nothing;
        otherwise clear, then insert the keys of other. */
    method Assign(other: Set)
      requires Valid() && other.Valid()
      modifies this
      ensures Valid() && Elements() == old(other.Elements())
      ensures other == this ==> root == old(root) && sz == old(sz)
    {
      if other == this {
        return;
      }
      ClearSet();
      InsertFrom(other);
    }
  }

  /** The keys of the worked example, in the order they are inserted. */
  lemma ExampleInput()
    ensures SetOf([5, 3, 8, 1, 4, 7, 9]) == {1, 3, 4, 5, 7, 8, 9}
  {
  }

  /** The increasing listing of the worked example's keys. */
  lemma ExampleListing()
    ensures SetOf([1, 3, 4, 5, 7, 8, 9]) == {1, 3, 4, 5, 7, 8, 9}
    ensures StrictlySorted([1, 3, 4, 5, 7, 8, 9])
  {
  }

  /** The increasing listing of the worked example's keys without 5. */
  lemma ExampleErased()
    ensures SetOf([1, 3, 4, 7, 8, 9]) == {1, 3, 4, 7, 8, 9} == {1, 3, 4, 5, 7, 8, 9} - {5}
    ensures StrictlySorted([1, 3, 4, 7, 8, 9])
  {
  }

  /** Iterating a container whose keys are known lists them in increasing
      order: the listing is the one strictly increasing sequence of them. */
  method ListKeys(s: Set, expected: seq<int>) returns (keys: seq<int>)
    requires s.Valid() && StrictlySorted(expected) && s.Elements() == SetOf(expected)
    ensures keys == expected
  {
    keys := s.Traverse();
    SortedListingUnique(keys, expected);
  }

  /** In a container holding {1, 3, 4, 7, 8, 9}, find(6) is end() and
      lower_bound(6) stands at the key 7. */
  method ProbeSix(a: Set) returns (found: Ptr, lower: int)
    requires a.Valid() && a.Elements() == {1, 3, 4, 7, 8, 9}
    ensures found == EndElem && lower == 7
  {
    found := a.Find(6);
    var lb := a.LowerBound(6);
    assert 7 in a.Elements();
    lower := KeyAt(a.root, lb.path);
  }

  /** A worked use of the container: build {5, 3, 8, 1, 4, 7, 9} from a
      list, copy it, erase 5 from the original, then look up 6. Forward
      iteration lists the keys in increasing order before and after the
      erase, the copy keeps every key, find(6) is end() and lower_bound(6)
      stands at 7. */
  method Scenario() returns (before: seq<int>, after: seq<int>, copied: seq<int>,
                             found: Ptr, lower: int)
    ensures before == [1, 3, 4, 5, 7, 8, 9]
    ensures after == [1, 3, 4, 7, 8, 9]
    ensures copied == before
    ensures found == EndElem && lower == 7
  {
    ExampleInput();
    ExampleListing();
    ExampleErased();
    var a := new Set.FromSeq([5, 3, 8, 1, 4, 7, 9]);
    before := ListKeys(a, [1, 3, 4, 5, 7, 8, 9]);
    var b := new Set.Copy(a);
    a.Erase(5);
    after := ListKeys(a, [1, 3, 4, 7, 8, 9]);
    copied := ListKeys(b, [1, 3, 4, 5, 7, 8, 9]);
    found, lower := ProbeSix(a);
  }
}
