/**
 * Recursive insertion into a subtree: descend left for a smaller key and
 * right otherwise (so duplicates go right), then rebalance every node on
 * the way back up.
 */
module AvlInsert {
  import opened AvlNode
  import opened AvlBalance

  /** Inserts one copy of val into the subtree and returns its new root. */
  function SubtreeInsert(val: int, n: Tree): (r: Tree)
    requires HeightsCorrect(n)
    ensures r.Node? && HeightsCorrect(r)
    ensures Elements(r) == Elements(n) + multiset{val}
    ensures Ordered(n) ==> Ordered(r)
    decreases n
  {
    match n
    case Nil => NodeCreate(val)
    case Node(v, l, rt, h) =>
      if val < v then
        var l' := SubtreeInsert(val, l);
        var m := Node(v, l', rt, h);
        assert Elements(m) == Elements(l') + multiset{v} + Elements(rt);
        AddToLeft(Elements(l), v, Elements(rt), val);
        GrownLeftOrdered(v, l, l', rt, h, val);
        SameInOrderSameOrder(m, Balance(m));
        Balance(m)
      else
        var rt' := SubtreeInsert(val, rt);
        var m := Node(v, l, rt', h);
        assert Elements(m) == Elements(l) + multiset{v} + Elements(rt');
        AddToRight(Elements(l), v, Elements(rt), val);
        GrownRightOrdered(v, l, rt, rt', h, val);
        SameInOrderSameOrder(m, Balance(m));
        Balance(m)
  }

  /** A left subtree that gained a key smaller than the node's keeps the
      node ordered. */
  lemma GrownLeftOrdered(v: int, l: Tree, l': Tree, r: Tree, h: int, x: int)
    requires Elements(l') == Elements(l) + multiset{x} && x < v
    ensures Ordered(Node(v, l, r, h)) && Ordered(l') ==> Ordered(Node(v, l', r, h))
  {
    if Ordered(Node(v, l, r, h)) && Ordered(l') {
      forall y | y in Elements(l') ensures y <= v {
        assert y in Elements(l) || y == x;
      }
    }
  }

  /** A right subtree that gained a key no smaller than the node's keeps the
      node ordered. */
  lemma GrownRightOrdered(v: int, l: Tree, r: Tree, r': Tree, h: int, x: int)
    requires Elements(r') == Elements(r) + multiset{x} && v <= x
    ensures Ordered(Node(v, l, r, h)) && Ordered(r') ==> Ordered(Node(v, l, r', h))
  {
    if Ordered(Node(v, l, r, h)) && Ordered(r') {
      forall y | y in Elements(r') ensures v <= y {
        assert y in Elements(r) || y == x;
      }
    }
  }

  lemma AddToLeft(a: multiset<int>, v: int, b: multiset<int>, x: int)
    ensures (a + multiset{x}) + multiset{v} + b == (a + multiset{v} + b) + multiset{x}
  {
  }

  lemma AddToRight(a: multiset<int>, v: int, b: multiset<int>, x: int)
    ensures a + multiset{v} + (b + multiset{x}) == (a + multiset{v} + b) + multiset{x}
  {
  }

  /** Height arithmetic of one insertion step: one subtree grew by at most
      one and the rebalanced node's height obeys the rebalance bounds. */
  lemma HeightAfterGrowth(hl: int, hr: int, hl': int, hr': int, hb: int)
    requires -1 <= hr - hl <= 1
    requires (hl <= hl' <= hl + 1 && hr' == hr) || (hr <= hr' <= hr + 1 && hl' == hl)
    requires Max(hl', hr') <= hb <= 1 + Max(hl', hr')
    requires -1 <= hr' - hl' <= 1 ==> hb == 1 + Max(hl', hr')
    ensures 1 + Max(hl, hr) <= hb <= 2 + Max(hl, hr)
  {
  }

  /** Insertion preserves the AVL invariant and grows the height by at most
      one. */
  lemma {:induction false} InsertPreservesAvl(val: int, n: Tree)
    requires IsAvl(n)
    ensures IsAvl(SubtreeInsert(val, n))
    ensures Height(n) <= Height(SubtreeInsert(val, n)) <= Height(n) + 1
  {
    match n
    case Nil =>
    case Node(v, l, rt, h) =>
      AvlChildren(n);
      if val < v {
        InsertPreservesAvl(val, l);
        var l' := SubtreeInsert(val, l);
        var m := Node(v, l', rt, h);
        assert SubtreeInsert(val, n) == Balance(m);
        BalanceRestoresAvl(m);
        HeightAfterGrowth(Height(l), Height(rt), Height(l'), Height(rt), Height(Balance(m)));
      } else {
        InsertPreservesAvl(val, rt);
        var rt' := SubtreeInsert(val, rt);
        var m := Node(v, l, rt', h);
        assert SubtreeInsert(val, n) == Balance(m);
        BalanceRestoresAvl(m);
        HeightAfterGrowth(Height(l), Height(rt), Height(l), Height(rt'), Height(Balance(m)));
      }
  }
}
