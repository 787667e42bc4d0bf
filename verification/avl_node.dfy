/**
 * Nodes of the AVL tree: the subtree value with its cached height, the
 * height helpers and balance factor, and the structural invariants
 * (ordering, height cache, balance) together with the facts relating them.
 */
module AvlNode {

  /** A subtree: absent (a NULL pointer) or a node holding a key, its two
      children and the cached height of the subtree rooted at it. */
  datatype Tree = Nil | Node(val: int, left: Tree, right: Tree, height: int)

  function Max(a: int, b: int): int {
    if a > b then a else b
  }

  /** The multiset of keys held by a subtree. */
  function Elements(t: Tree): multiset<int> {
    match t
    case Nil => multiset{}
    case Node(v, l, r, _) => Elements(l) + multiset{v} + Elements(r)
  }

  /** The keys of a subtree in the order an in-order walk visits them. */
  function InOrder(t: Tree): seq<int> {
    match t
    case Nil => []
    case Node(v, l, r, _) => InOrder(l) + [v] + InOrder(r)
  }

  /** The height of a subtree computed from its shape, the absent subtree
      counting as -1; the reference the cached heights are checked against. */
  function Height(t: Tree): (h: int)
    ensures h >= -1
    ensures t.Node? ==> h >= 0
  {
    match t
    case Nil => -1
    case Node(_, l, r, _) => 1 + Max(Height(l), Height(r))
  }

  /** A fresh node holding one key, with no children and height 0. */
  function NodeCreate(val: int): (n: Tree)
    ensures Elements(n) == multiset{val} && InOrder(n) == [val]
    ensures IsAvl(n) && Ordered(n) && Height(n) == 0
  {
    Node(val, Nil, Nil, 0)
  }

  /** The height of a subtree as cached in its root: -1 when absent. */
  function GetHeight(t: Tree): int {
    if t.Nil? then -1 else t.height
  }

  /** Recomputes the cached height of a node from its children's cached
      heights; nothing else about the node changes. */
  function UpdateHeight(n: Tree): (r: Tree)
    requires n.Node?
    ensures r.Node? && r.val == n.val && r.left == n.left && r.right == n.right
    ensures HeightsCorrect(n.left) && HeightsCorrect(n.right) ==>
              HeightsCorrect(r) && r.height == Height(n)
  {
    CachedHeightIsTrue(n.left);
    CachedHeightIsTrue(n.right);
    var lh := GetHeight(n.left);
    var rh := GetHeight(n.right);
    n.(height := if lh > rh then lh + 1 else rh + 1)
  }

  /** Height of the right subtree minus height of the left one, both as
      cached; negative means left-heavy. */
  function BalanceFactor(n: Tree): (bf: int)
    requires n.Node?
    ensures HeightsCorrect(n.left) && HeightsCorrect(n.right) ==>
              bf == Height(n.right) - Height(n.left)
  {
    CachedHeightIsTrue(n.left);
    CachedHeightIsTrue(n.right);
    GetHeight(n.right) - GetHeight(n.left)
  }

  /** Every cached height equals one more than the larger cached height of
      the node's children. */
  ghost predicate HeightsCorrect(t: Tree) {
    match t
    case Nil => true
    case Node(_, l, r, h) =>
      && h == 1 + Max(GetHeight(l), GetHeight(r))
      && HeightsCorrect(l)
      && HeightsCorrect(r)
  }

  /** Every node has a balance factor between -1 and 1. */
  ghost predicate Balanced(t: Tree) {
    match t
    case Nil => true
    case Node(_, l, r, _) => -1 <= BalanceFactor(t) <= 1 && Balanced(l) && Balanced(r)
  }

  /** The structural AVL invariant: correct height cache and balance. */
  ghost predicate IsAvl(t: Tree) {
    HeightsCorrect(t) && Balanced(t)
  }

  /** The search-tree ordering, in its weak form: every key of the left
      subtree is at most the node's key, every key of the right subtree at
      least it (equal keys may sit on either side). */
  ghost predicate Ordered(t: Tree) {
    match t
    case Nil => true
    case Node(v, l, r, _) =>
      && Ordered(l)
      && Ordered(r)
      && (forall x | x in Elements(l) :: x <= v)
      && (forall x | x in Elements(r) :: v <= x)
  }

  ghost predicate Sorted(s: seq<int>) {
    forall i, j | 0 <= i < j < |s| :: s[i] <= s[j]
  }

  /** A node whose cached height is right, whose subtrees are AVL and whose
      subtree heights differ by at most one is AVL. */
  lemma NodeIsAvl(t: Tree)
    requires t.Node? && HeightsCorrect(t) && IsAvl(t.left) && IsAvl(t.right)
    requires -1 <= Height(t.right) - Height(t.left) <= 1
    ensures IsAvl(t) && Height(t) == 1 + Max(Height(t.left), Height(t.right))
  {
    assert BalanceFactor(t) == Height(t.right) - Height(t.left);
  }

  /** The subtrees of an AVL node are AVL and differ in height by at most one. */
  lemma AvlChildren(t: Tree)
    requires t.Node? && IsAvl(t)
    ensures IsAvl(t.left) && IsAvl(t.right)
    ensures -1 <= Height(t.right) - Height(t.left) <= 1
    ensures BalanceFactor(t) == Height(t.right) - Height(t.left)
  {
  }

  /** A node is ordered when its subtrees are and its key lies between them. */
  lemma OrderedNode(v: int, l: Tree, r: Tree, h: int)
    requires Ordered(l) && Ordered(r)
    requires forall y | y in Elements(l) :: y <= v
    requires forall y | y in Elements(r) :: v <= y
    ensures Ordered(Node(v, l, r, h))
  {
  }

  /** Under the height-cache invariant the cached height is the true one. */
  lemma {:induction false} CachedHeightIsTrue(t: Tree)
    ensures HeightsCorrect(t) ==> GetHeight(t) == Height(t)
  {
    if t.Node? {
      CachedHeightIsTrue(t.left);
      CachedHeightIsTrue(t.right);
    }
  }

  /** The in-order walk lists exactly the keys of the subtree. */
  lemma {:induction false} InOrderHasElements(t: Tree)
    ensures multiset(InOrder(t)) == Elements(t)
  {
    if t.Node? {
      InOrderHasElements(t.left);
      InOrderHasElements(t.right);
    }
  }

  /** A sequence split around one key is sorted exactly when both parts are
      sorted and the key lies between them. */
  lemma SortedAround(a: seq<int>, v: int, b: seq<int>)
    ensures Sorted(a + [v] + b) <==>
              && Sorted(a) && Sorted(b)
              && (forall x | x in a :: x <= v)
              && (forall x | x in b :: v <= x)
  {
    var s := a + [v] + b;
    if Sorted(s) {
      forall i, j | 0 <= i < j < |a| ensures a[i] <= a[j] {
        assert a[i] == s[i] && a[j] == s[j];
      }
      forall i, j | 0 <= i < j < |b| ensures b[i] <= b[j] {
        assert b[i] == s[|a| + 1 + i] && b[j] == s[|a| + 1 + j];
      }
      forall x | x in a ensures x <= v {
        var i :| 0 <= i < |a| && a[i] == x;
        assert s[i] == x && s[|a|] == v;
      }
      forall x | x in b ensures v <= x {
        var i :| 0 <= i < |b| && b[i] == x;
        assert s[|a| + 1 + i] == x && s[|a|] == v;
      }
    }
    if && Sorted(a) && Sorted(b)
       && (forall x | x in a :: x <= v)
       && (forall x | x in b :: v <= x)
    {
      forall i, j | 0 <= i < j < |s| ensures s[i] <= s[j] {
        if j < |a| {
          assert s[i] == a[i] && s[j] == a[j];
        } else if i > |a| {
          assert s[i] == b[i - |a| - 1] && s[j] == b[j - |a| - 1];
        } else {
          if i < |a| {
            assert s[i] == a[i] && a[i] in a;
          }
          if j > |a| {
            assert s[j] == b[j - |a| - 1] && b[j - |a| - 1] in b;
          }
        }
      }
    }
  }

  /** The ordering invariant holds exactly when the in-order walk yields
      non-decreasing keys. */
  lemma {:induction false} OrderedIffSorted(t: Tree)
    ensures Ordered(t) <==> Sorted(InOrder(t))
  {
    match t
    case Nil =>
    case Node(v, l, r, _) =>
      OrderedIffSorted(l);
      OrderedIffSorted(r);
      InOrderHasElements(l);
      InOrderHasElements(r);
      SortedAround(InOrder(l), v, InOrder(r));
      assert forall x :: x in Elements(l) <==> x in InOrder(l);
      assert forall x :: x in Elements(r) <==> x in InOrder(r);
  }

  /** Two subtrees with the same in-order walk are ordered alike; this is
      how rotations and rebalancing keep the ordering invariant. */
  lemma SameInOrderSameOrder(a: Tree, b: Tree)
    requires InOrder(a) == InOrder(b)
    ensures Ordered(a) <==> Ordered(b)
  {
    OrderedIffSorted(a);
    OrderedIffSorted(b);
  }

  function Pow2(k: nat): nat {
    if k == 0 then 1 else 2 * Pow2(k - 1)
  }

  /** The fewest keys an AVL subtree of height h can hold: none when absent,
      otherwise the root plus the smallest subtrees of heights h - 1 and
      h - 2 (a Fibonacci-like sequence 0, 1, 2, 4, 7, 12, 20, ...). */
  function MinSize(h: int): nat
    decreases h
  {
    if h < 0 then 0 else MinSize(h - 1) + MinSize(h - 2) + 1
  }

  lemma {:induction false} MinSizeMonotonic(a: int, b: int)
    requires a <= b
    ensures MinSize(a) <= MinSize(b)
    decreases b - a
  {
    if a < b {
      MinSizeMonotonic(a, b - 1);
    }
  }

  /** Size step of the minimum-size bound: a node whose subtree heights differ
      by at most one holds at least MinSize of its own height. */
  lemma MinSizeStep(h: int, hl: int, hr: int, a: int, b: int, n: int)
    requires h == 1 + Max(hl, hr) && -1 <= hr - hl <= 1
    requires MinSize(hl) <= a && MinSize(hr) <= b && n == a + 1 + b
    ensures MinSize(h) <= n
  {
    if hl <= hr {
      MinSizeMonotonic(h - 2, hl);
    } else {
      MinSizeMonotonic(h - 2, hr);
    }
  }

  /** An AVL subtree of height h holds at least MinSize(h) keys. */
  lemma {:induction false} AvlMinSize(t: Tree)
    requires IsAvl(t)
    ensures MinSize(Height(t)) <= |Elements(t)|
  {
    if t.Node? {
      AvlChildren(t);
      AvlMinSize(t.left);
      AvlMinSize(t.right);
      NodeSize(t);
      MinSizeStep(Height(t), Height(t.left), Height(t.right),
                  |Elements(t.left)|, |Elements(t.right)|, |Elements(t)|);
    }
  }

  /** The balance invariant keeps the height logarithmic in the number of
      keys: a subtree of height h holds at least 2^k - 1 keys whenever
      2k <= h + 1. */
  lemma {:induction false} AvlHeightIsLogarithmic(t: Tree, k: nat)
    requires IsAvl(t)
    requires 2 * k <= Height(t) + 1
    ensures Pow2(k) <= |Elements(t)| + 1
  {
    if k > 0 {
      assert t.Node?;
      ChildHeights(t);
      var l, r, j := t.left, t.right, k - 1;
      AvlHeightIsLogarithmic(l, j);
      AvlHeightIsLogarithmic(r, j);
      NodeSize(t);
      DoubleBound(k, |Elements(l)| + 1, |Elements(r)| + 1, |Elements(t)| + 1);
    }
  }

  /** The subtrees of an AVL node are AVL and at most two lower than it. */
  lemma ChildHeights(t: Tree)
    requires t.Node? && IsAvl(t)
    ensures IsAvl(t.left) && IsAvl(t.right)
    ensures Height(t.left) >= Height(t) - 2 && Height(t.right) >= Height(t) - 2
  {
    AvlChildren(t);
  }

  /** Doubling step of the size bound. */
  lemma DoubleBound(k: nat, a: int, b: int, n: int)
    requires k > 0 && Pow2(k - 1) <= a && Pow2(k - 1) <= b && n == a + b
    ensures Pow2(k) <= n
  {
  }

  /** A node holds its own key and the keys of both subtrees. */
  lemma NodeSize(t: Tree)
    requires t.Node?
    ensures |Elements(t)| == |Elements(t.left)| + 1 + |Elements(t.right)|
  {
  }
}
