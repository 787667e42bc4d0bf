/**
 * Recursive removal from a subtree, with the in-order successor copied into
 * a node that has two children, and the leftmost-key search it relies on.
 */
module AvlRemove {
  import opened AvlNode
  import opened AvlBalance

  /** The key of the leftmost node of a non-empty subtree; under the ordering
      invariant it is the smallest key there. */
  function MinVal(n: Tree): (m: int)
    requires n.Node?
    ensures m in Elements(n)
    ensures Ordered(n) ==> forall x | x in Elements(n) :: m <= x
    decreases n
  {
    if n.left.Nil? then n.val else MinVal(n.left)
  }

  /** The search loop for the leftmost key: follow left children until a
      node has none. */
  method SubtreeMinVal(n: Tree) returns (m: int)
    requires n.Node?
    ensures m == MinVal(n)
    ensures m in Elements(n)
    ensures Ordered(n) ==> forall x | x in Elements(n) :: m <= x
  {
    var cur := n;
    while cur.left.Node?
      invariant cur.Node? && MinVal(cur) == MinVal(n)
      decreases cur
    {
      cur := cur.left;
    }
    m := cur.val;
  }

  /** Removes one occurrence of val from the subtree, if there is one, and
      returns the new subtree root. A node with two children takes the
      smallest key of its right subtree, which is then removed from there; a
      node with one child is replaced by that child; a leaf disappears. */
  function SubtreeRemove(val: int, n: Tree): (r: Tree)
    requires HeightsCorrect(n)
    ensures HeightsCorrect(r)
    ensures Ordered(n) ==> Ordered(r) && Elements(r) == Elements(n) - multiset{val}
    decreases n
  {
    match n
    case Nil => Nil
    case Node(v, l, rt, h) =>
      if val < v then
        var l' := SubtreeRemove(val, l);
        var m := Node(v, l', rt, h);
        RemovedLeft(v, l, l', rt, h, val);
        SameInOrderSameOrder(m, Balance(m));
        Balance(m)
      else if val > v then
        var rt' := SubtreeRemove(val, rt);
        var m := Node(v, l, rt', h);
        RemovedRight(v, l, rt, rt', h, val);
        SameInOrderSameOrder(m, Balance(m));
        Balance(m)
      else if l.Node? && rt.Node? then
        var succ := MinVal(rt);
        var rt' := SubtreeRemove(succ, rt);
        var m := Node(succ, l, rt', h);
        ReplacedBySuccessor(v, l, rt, rt', h, succ);
        SameInOrderSameOrder(m, Balance(m));
        Balance(m)
      else if l.Node? then
        l
      else if rt.Node? then
        rt
      else
        Nil
  }

  /** Removing a key below the node's key from the left subtree removes it
      from the whole subtree and keeps it ordered. */
  lemma RemovedLeft(v: int, l: Tree, l': Tree, r: Tree, h: int, x: int)
    requires x < v
    requires Ordered(l) ==> Ordered(l') && Elements(l') == Elements(l) - multiset{x}
    ensures var n, m := Node(v, l, r, h), Node(v, l', r, h);
            Ordered(n) ==> Ordered(m) && Elements(m) == Elements(n) - multiset{x}
  {
    var n, m := Node(v, l, r, h), Node(v, l', r, h);
    if Ordered(n) {
      assert x !in Elements(r);
      assert Ordered(l) && Ordered(r);
      forall y | y in Elements(l') ensures y <= v {
        assert y in Elements(l);
      }
      OrderedNode(v, l', r, h);
      MultisetRemoveLeft(Elements(l), v, Elements(r), x);
    }
  }

  /** Removing a key above the node's key from the right subtree removes it
      from the whole subtree and keeps it ordered. */
  lemma RemovedRight(v: int, l: Tree, r: Tree, r': Tree, h: int, x: int)
    requires v < x
    requires Ordered(r) ==> Ordered(r') && Elements(r') == Elements(r) - multiset{x}
    ensures var n, m := Node(v, l, r, h), Node(v, l, r', h);
            Ordered(n) ==> Ordered(m) && Elements(m) == Elements(n) - multiset{x}
  {
    var n, m := Node(v, l, r, h), Node(v, l, r', h);
    if Ordered(n) {
      assert x !in Elements(l);
      assert Ordered(l) && Ordered(r);
      forall y | y in Elements(r') ensures v <= y {
        assert y in Elements(r);
      }
      OrderedNode(v, l, r', h);
      MultisetRemoveRight(Elements(l), v, Elements(r), x);
    }
  }

  /** Overwriting the node's key with the smallest key of its right subtree
      and removing that key from the right subtree removes the node's key
      and keeps the subtree ordered. */
  lemma ReplacedBySuccessor(v: int, l: Tree, r: Tree, r': Tree, h: int, s: int)
    requires s in Elements(r)
    requires Ordered(r) ==> forall x | x in Elements(r) :: s <= x
    requires Ordered(r) ==> Ordered(r') && Elements(r') == Elements(r) - multiset{s}
    ensures var n, m := Node(v, l, r, h), Node(s, l, r', h);
            Ordered(n) ==> Ordered(m) && Elements(m) == Elements(n) - multiset{v}
  {
    var n, m := Node(v, l, r, h), Node(s, l, r', h);
    if Ordered(n) {
      assert Ordered(l) && Ordered(r) && v <= s;
      forall y | y in Elements(l) ensures y <= s {
        assert y <= v;
      }
      forall y | y in Elements(r') ensures s <= y {
        assert y in Elements(r);
      }
      OrderedNode(s, l, r', h);
      MultisetReplace(Elements(l), v, Elements(r), s);
    }
  }

  lemma MultisetRemoveLeft(a: multiset<int>, v: int, b: multiset<int>, x: int)
    requires x != v && x !in b
    ensures (a - multiset{x}) + multiset{v} + b == (a + multiset{v} + b) - multiset{x}
  {
  }

  lemma MultisetRemoveRight(a: multiset<int>, v: int, b: multiset<int>, x: int)
    requires x != v && x !in a
    ensures a + multiset{v} + (b - multiset{x}) == (a + multiset{v} + b) - multiset{x}
  {
  }

  lemma MultisetReplace(a: multiset<int>, v: int, b: multiset<int>, s: int)
    requires s in b
    ensures a + multiset{s} + (b - multiset{s}) == (a + multiset{v} + b) - multiset{v}
  {
  }

  /** A node with a single child under the AVL invariant has a leaf as
      that child, so returning the child unbalanced is safe. */
  lemma OneChildIsLeaf(n: Tree)
    requires n.Node? && IsAvl(n)
    requires n.left.Nil? || n.right.Nil?
    ensures n.left.Node? ==> n.left.left.Nil? && n.left.right.Nil?
    ensures n.right.Node? ==> n.right.left.Nil? && n.right.right.Nil?
  {
    AvlChildren(n);
    if n.left.Node? {
      AvlChildren(n.left);
    }
    if n.right.Node? {
      AvlChildren(n.right);
    }
  }

  /** Height arithmetic of one removal step: one subtree shrank by at most
      one and the rebalanced node's height obeys the rebalance bounds. */
  lemma HeightAfterShrink(hl: int, hr: int, hl': int, hr': int, hb: int)
    requires -1 <= hr - hl <= 1
    requires (hl - 1 <= hl' <= hl && hr' == hr) || (hr - 1 <= hr' <= hr && hl' == hl)
    requires Max(hl', hr') <= hb <= 1 + Max(hl', hr')
    requires -1 <= hr' - hl' <= 1 ==> hb == 1 + Max(hl', hr')
    ensures Max(hl, hr) <= hb <= 1 + Max(hl, hr)
  {
  }

  /** Removal preserves the AVL invariant and lowers the height by at most
      one. */
  lemma {:induction false} RemovePreservesAvl(val: int, n: Tree)
    requires IsAvl(n)
    ensures IsAvl(SubtreeRemove(val, n))
    ensures Height(n) - 1 <= Height(SubtreeRemove(val, n)) <= Height(n)
    decreases n
  {
    match n
    case Nil =>
    case Node(v, l, rt, h) =>
      AvlChildren(n);
      if val < v {
        RemovePreservesAvl(val, l);
        var l' := SubtreeRemove(val, l);
        var m := Node(v, l', rt, h);
        assert SubtreeRemove(val, n) == Balance(m);
        BalanceRestoresAvl(m);
        HeightAfterShrink(Height(l), Height(rt), Height(l'), Height(rt), Height(Balance(m)));
      } else if val > v {
        RemovePreservesAvl(val, rt);
        var rt' := SubtreeRemove(val, rt);
        var m := Node(v, l, rt', h);
        assert SubtreeRemove(val, n) == Balance(m);
        BalanceRestoresAvl(m);
        HeightAfterShrink(Height(l), Height(rt), Height(l), Height(rt'), Height(Balance(m)));
      } else if l.Node? && rt.Node? {
        var succ := MinVal(rt);
        RemovePreservesAvl(succ, rt);
        var rt' := SubtreeRemove(succ, rt);
        var m := Node(succ, l, rt', h);
        assert SubtreeRemove(val, n) == Balance(m);
        BalanceRestoresAvl(m);
        HeightAfterShrink(Height(l), Height(rt), Height(l), Height(rt'), Height(Balance(m)));
      } else {
        OneChildIsLeaf(n);
      }
  }

  /** Removing a key that does not occur leaves the subtree exactly as it
      was: the search falls off the tree and every node on the way back up
      is already balanced. */
  lemma {:induction false} RemoveAbsentIsIdentity(val: int, n: Tree)
    requires IsAvl(n) && val !in Elements(n)
    ensures SubtreeRemove(val, n) == n
  {
    match n
    case Nil =>
    case Node(v, l, rt, h) =>
      AvlChildren(n);
      BalanceOfAvlIsIdentity(n);
      if val < v {
        RemoveAbsentIsIdentity(val, l);
        assert SubtreeRemove(val, n) == Balance(n);
      } else {
        assert val != v;
        RemoveAbsentIsIdentity(val, rt);
        assert SubtreeRemove(val, n) == Balance(n);
      }
  }
}
