/** The node storage of hset::Set and the invariants the container keeps.

    A subtree is either absent (`Leaf`, the source's null child pointer) or a
    node holding its key, its cached height and its two owned children.
    Keys are specialised to `int`, ordered by `<`; two keys are equal when
    neither is less than the other. Parent pointers are not stored here: a
    node is identified by its path from the root (module Lookup), and its
    parent is the path one step shorter. */
module AvlTree {

  datatype Tree = Leaf | Node(left: Tree, key: int, height: int, right: Tree)

  /** std::max on int */
  function Max(a: int, b: int): int { if a < b then b else a }

  /** The keys stored in a subtree, as a set. */
  ghost function Keys(t: Tree): set<int> {
    match t
    case Leaf => {}
    case Node(l, k, _, r) => Keys(l) + {k} + Keys(r)
  }

  /** The keys of a subtree in in-order (left subtree, node, right subtree):
      the order in which the iterator visits them. Its length is the number
      of nodes. */
  ghost function InOrder(t: Tree): seq<int> {
    match t
    case Leaf => []
    case Node(l, k, _, r) => InOrder(l) + [k] + InOrder(r)
  }

  /** The true height of a subtree, computed from its shape alone. */
  ghost function Depth(t: Tree): nat {
    match t
    case Leaf => 0
    case Node(l, _, _, r) => 1 + (if Depth(l) < Depth(r) then Depth(r) else Depth(l))
  }

  /** Binary-search-tree order: every key in a left subtree is less than
      the node's key, every key in a right subtree is greater. */
  ghost predicate Ordered(t: Tree) {
    match t
    case Leaf => true
    case Node(l, k, _, r) =>
      Ordered(l) && Ordered(r) &&
      (forall x :: x in Keys(l) ==> x < k) &&
      (forall x :: x in Keys(r) ==> k < x)
  }

  /** k is not less than any key of s. */
  ghost predicate AllAtMost(s: set<int>, k: int) {
    forall x :: x in s ==> x <= k
  }

  /** k is not greater than any key of s. */
  ghost predicate AllAtLeast(s: set<int>, k: int) {
    forall x :: x in s ==> k <= x
  }

  /** No key of s lies strictly between lo and hi: hi follows lo in s. */
  ghost predicate NoneBetween(s: set<int>, lo: int, hi: int) {
    forall x :: x in s && lo < x ==> hi <= x
  }

  /** The elements of a sequence, as a set. */
  ghost function SetOf(s: seq<int>): set<int> {
    set x | x in s
  }

  ghost predicate StrictlySorted(s: seq<int>) {
    forall i, j :: 0 <= i < j < |s| ==> s[i] < s[j]
  }

  /** Height: an absent subtree has height 0, a node its cached height. */
  function Height(t: Tree): int {
    if t.Leaf? then 0 else t.height
  }

  /** BalFact: height of the right subtree minus height of the left one. */
  function BalFact(t: Tree): int
    requires t.Node?
  {
    Height(t.right) - Height(t.left)
  }

  /** Every cached height is one more than the larger height of its children. */
  ghost predicate HeightsCached(t: Tree) {
    match t
    case Leaf => true
    case Node(l, _, h, r) =>
      HeightsCached(l) && HeightsCached(r) && h == Max(Height(l), Height(r)) + 1
  }

  /** The AVL rule at every node: |height(right) - height(left)| <= 1. */
  ghost predicate Balanced(t: Tree) {
    match t
    case Leaf => true
    case Node(l, _, _, r) => Balanced(l) && Balanced(r) && -1 <= BalFact(t) <= 1
  }

  ghost predicate IsAvl(t: Tree) {
    HeightsCached(t) && Balanced(t)
  }

  /** With correct cached heights, Height reads the true height. */
  lemma {:induction false} CachedHeightIsDepth(t: Tree)
    requires HeightsCached(t)
    ensures Height(t) == Depth(t)
    ensures t.Node? ==> Height(t) >= 1
  {
    match t
    case Leaf =>
    case Node(l, _, _, r) =>
      CachedHeightIsDepth(l);
      CachedHeightIsDepth(r);
  }

  /** The in-order sequence holds exactly the keys of the subtree. */
  lemma {:induction false} InOrderKeys(t: Tree)
    ensures forall x :: x in InOrder(t) <==> x in Keys(t)
  {
    match t
    case Leaf =>
    case Node(l, k, _, r) =>
      InOrderKeys(l);
      InOrderKeys(r);
  }

  /** The in-order sequence holds exactly the keys of the subtree, as sets. */
  lemma InOrderSet(t: Tree)
    ensures SetOf(InOrder(t)) == Keys(t)
  {
    InOrderKeys(t);
  }

  /** A sequence split around one element is strictly increasing exactly
      when both parts are and the element lies strictly between them. */
  lemma SortedAround(a: seq<int>, k: int, b: seq<int>)
    ensures StrictlySorted(a + [k] + b) <==>
              StrictlySorted(a) && StrictlySorted(b) &&
              (forall x :: x in a ==> x < k) && (forall x :: x in b ==> k < x)
  {
    var s := a + [k] + b;
    assert forall i :: 0 <= i < |a| ==> s[i] == a[i];
    assert s[|a|] == k;
    assert forall i :: 0 <= i < |b| ==> s[|a| + 1 + i] == b[i];
    if StrictlySorted(a) && StrictlySorted(b) &&
       (forall x :: x in a ==> x < k) && (forall x :: x in b ==> k < x) {
      forall i, j | 0 <= i < j < |s| ensures s[i] < s[j] {
        if j < |a| {
          assert s[i] == a[i] && s[j] == a[j];
        } else if i < |a| {
          assert s[i] == a[i] && a[i] in a;
          if j > |a| { assert s[j] == b[j - |a| - 1] && b[j - |a| - 1] in b; }
        } else if i == |a| {
          assert s[j] == b[j - |a| - 1] && b[j - |a| - 1] in b;
        } else {
          assert s[i] == b[i - |a| - 1] && s[j] == b[j - |a| - 1];
        }
      }
    }
    if StrictlySorted(s) {
      forall i, j | 0 <= i < j < |b| ensures b[i] < b[j] {
        assert s[|a| + 1 + i] == b[i] && s[|a| + 1 + j] == b[j];
      }
      forall x | x in a ensures x < k {
        var i :| 0 <= i < |a| && a[i] == x;
        assert s[i] == x;
      }
      forall x | x in b ensures k < x {
        var i :| 0 <= i < |b| && b[i] == x;
        assert s[|a| + 1 + i] == x;
      }
    }
  }

  /** Search-tree order holds exactly when the in-order sequence is strictly
      increasing, which is what forward iteration shows a caller. */
  lemma {:induction false} OrderedIffSorted(t: Tree)
    ensures Ordered(t) <==> StrictlySorted(InOrder(t))
  {
    match t
    case Leaf =>
    case Node(l, k, _, r) =>
      OrderedIffSorted(l);
      OrderedIffSorted(r);
      InOrderKeys(l);
      InOrderKeys(r);
      SortedAround(InOrder(l), k, InOrder(r));
  }

  lemma EmptyListing(s: seq<int>)
    ensures SetOf(s) == {} <==> s == []
  {
    if s != [] { assert s[0] in SetOf(s); }
  }

  /** A set of keys has only one strictly increasing listing. */
  lemma {:induction false} SortedListingUnique(a: seq<int>, b: seq<int>)
    requires StrictlySorted(a) && StrictlySorted(b) && SetOf(a) == SetOf(b)
    ensures a == b
    decreases |a|
  {
    EmptyListing(a);
    EmptyListing(b);
    if a != [] && b != [] {
      assert a[0] in SetOf(b) && b[0] in SetOf(a);
      assert a[0] == b[0];
      assert SetOf(a[1..]) == SetOf(a) - {a[0]} by {
        assert a == [a[0]] + a[1..];
        forall x | x in a[1..] ensures x != a[0] {}
      }
      assert SetOf(b[1..]) == SetOf(b) - {b[0]} by {
        assert b == [b[0]] + b[1..];
        forall x | x in b[1..] ensures x != b[0] {}
      }
      SortedListingUnique(a[1..], b[1..]);
      assert a == [a[0]] + a[1..] && b == [b[0]] + b[1..];
    }
  }

  /** In a search tree no key is stored twice, so the number of nodes is
      the number of distinct keys. */
  lemma {:induction false} OrderedNodeCount(t: Tree)
    requires Ordered(t)
    ensures |Keys(t)| == |InOrder(t)|
  {
    match t
    case Leaf =>
    case Node(l, k, _, r) =>
      OrderedNodeCount(l);
      OrderedNodeCount(r);
      assert k !in Keys(l) && k !in Keys(r);
      assert Keys(l) * Keys(r) == {} by {
        forall x | x in Keys(l) ensures x !in Keys(r) {}
      }
      calc {
        |Keys(t)|;
        |(Keys(l) + Keys(r)) + {k}|;
        |Keys(l) + Keys(r)| + 1;
        |Keys(l)| + |Keys(r)| + 1;
      }
  }

  function Pow2(n: nat): (p: nat)
    ensures p >= 1
  {
    if n == 0 then 1 else 2 * Pow2(n - 1)
  }

  lemma {:induction false} Pow2Monotone(m: nat, n: nat)
    requires m <= n
    ensures Pow2(m) <= Pow2(n)
  {
    if m < n { Pow2Monotone(m, n - 1); }
  }

  /** An AVL tree of height h holds at least 2^(h/2) - 1 nodes, so its
      height is logarithmic in its size: this is what makes every
      operation walk O(log n) nodes. */
  lemma {:induction false} AvlSizeBound(t: Tree)
    requires IsAvl(t)
    ensures Pow2(Depth(t) / 2) <= |InOrder(t)| + 1
  {
    match t
    case Leaf =>
    case Node(l, _, h, r) =>
      AvlSizeBound(l);
      AvlSizeBound(r);
      CachedHeightIsDepth(l);
      CachedHeightIsDepth(r);
      CachedHeightIsDepth(t);
      if h >= 2 {
        // both children are at least h - 2 high
        var lo := (h - 2) / 2;
        assert lo <= Height(l) / 2 && lo <= Height(r) / 2 && h / 2 == lo + 1;
        Pow2Monotone(lo, Height(l) / 2);
        Pow2Monotone(lo, Height(r) / 2);
        assert Pow2(lo + 1) == 2 * Pow2(lo);
        assert |InOrder(t)| + 1 == (|InOrder(l)| + 1) + (|InOrder(r)| + 1);
      }
  }
}
