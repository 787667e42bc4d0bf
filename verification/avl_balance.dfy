/**
 * Rotations and the rebalance step. Each returns the new root of the
 * subtree it was given, as the C helpers return the new subtree root.
 */
module AvlBalance {
  import opened AvlNode

  /** Left rotation around the right child (the center): the center becomes
      the subtree root and takes the old root as its left child; the old root
      is re-heighted first, then the center. */
  function RotateLeft(n: Tree): (r: Tree)
    requires n.Node? && n.right.Node?
    ensures r.Node?
    ensures InOrder(r) == InOrder(n) && Elements(r) == Elements(n)
    ensures HeightsCorrect(n.left) && HeightsCorrect(n.right.left) && HeightsCorrect(n.right.right) ==>
              HeightsCorrect(r)
  {
    var center := n.right;
    var n' := UpdateHeight(n.(right := center.left));
    UpdateHeight(center.(left := n'))
  }

  /** Right rotation around the left child, the mirror of RotateLeft. */
  function RotateRight(n: Tree): (r: Tree)
    requires n.Node? && n.left.Node?
    ensures r.Node?
    ensures InOrder(r) == InOrder(n) && Elements(r) == Elements(n)
    ensures HeightsCorrect(n.right) && HeightsCorrect(n.left.left) && HeightsCorrect(n.left.right) ==>
              HeightsCorrect(r)
  {
    var center := n.left;
    var n' := UpdateHeight(n.(left := center.right));
    UpdateHeight(center.(right := n'))
  }

  /** The rebalance step: a left-heavy node (balance factor below -1) is
      rotated right, after rotating its left child left when that child is
      right-heavy; a right-heavy node is treated in mirror image; any other
      node only has its height recomputed. */
  function Balance(n: Tree): (r: Tree)
    requires n.Node? && HeightsCorrect(n.left) && HeightsCorrect(n.right)
    ensures r.Node? && HeightsCorrect(r)
    ensures InOrder(r) == InOrder(n) && Elements(r) == Elements(n)
    ensures -1 <= BalanceFactor(n) <= 1 ==>
              r.val == n.val && r.left == n.left && r.right == n.right
  {
    var bf := BalanceFactor(n);
    if bf < -1 then
      var l := n.left;
      assert HeightsCorrect(l.left) && HeightsCorrect(l.right);
      var l' := if BalanceFactor(l) > 0 then RotateLeft(l) else l;
      assert HeightsCorrect(l'.left) && HeightsCorrect(l'.right);
      RotateRight(n.(left := l'))
    else if bf > 1 then
      var r := n.right;
      assert HeightsCorrect(r.left) && HeightsCorrect(r.right);
      var r' := if BalanceFactor(r) < 0 then RotateRight(r) else r;
      assert HeightsCorrect(r'.left) && HeightsCorrect(r'.right);
      RotateLeft(n.(right := r'))
    else
      UpdateHeight(n)
  }

  /** Double rotation of a left-heavy node whose left child is right-heavy:
      the left child's right child becomes the root of an AVL subtree as tall
      as the left subtree was. */
  lemma LeftRightCase(n: Tree)
    requires n.Node? && IsAvl(n.left) && IsAvl(n.right)
    requires Height(n.left) == Height(n.right) + 2
    requires n.left.Node? && n.left.right.Node? && BalanceFactor(n.left) > 0
    ensures var r := RotateRight(n.(left := RotateLeft(n.left)));
            IsAvl(r) && Height(r) == Height(n.left)
  {
    var L, R := n.left, n.right;
    AvlChildren(L);
    var A, B := L.left, L.right;
    AvlChildren(B);
    var B1, B2 := B.left, B.right;
    var h := Height(R);
    assert Height(A) == h && Height(B) == h + 1;
    assert h - 1 <= Height(B1) <= h && h - 1 <= Height(B2) <= h;
    var L' := RotateLeft(L);
    assert HeightsCorrect(L');
    var r := RotateRight(n.(left := L'));
    assert HeightsCorrect(r);
    var X, Y := r.left, r.right;
    assert X.left == A && X.right == B1 && Y.left == B2 && Y.right == R;
    assert Max(Height(X.left), Height(X.right)) == h;
    assert Max(Height(Y.left), Height(Y.right)) == h;
    NodeIsAvl(X);
    NodeIsAvl(Y);
    NodeIsAvl(r);
  }

  /** Single rotation of a left-heavy node whose left child is not
      right-heavy. */
  lemma LeftLeftCase(n: Tree)
    requires n.Node? && IsAvl(n.left) && IsAvl(n.right)
    requires Height(n.left) == Height(n.right) + 2
    requires n.left.Node? && BalanceFactor(n.left) <= 0
    ensures var r := RotateRight(n);
            IsAvl(r) && Height(n.left) <= Height(r) <= Height(n.left) + 1
  {
    var L, R := n.left, n.right;
    AvlChildren(L);
    var A, B := L.left, L.right;
    var r := RotateRight(n);
    assert r.left == A && r.right.left == B && r.right.right == R;
    NodeIsAvl(r.right);
    NodeIsAvl(r);
  }

  /** Double rotation of a right-heavy node whose right child is
      left-heavy. */
  lemma RightLeftCase(n: Tree)
    requires n.Node? && IsAvl(n.left) && IsAvl(n.right)
    requires Height(n.right) == Height(n.left) + 2
    requires n.right.Node? && n.right.left.Node? && BalanceFactor(n.right) < 0
    ensures var r := RotateLeft(n.(right := RotateRight(n.right)));
            IsAvl(r) && Height(r) == Height(n.right)
  {
    var L, R := n.left, n.right;
    AvlChildren(R);
    var A, B := R.right, R.left;
    AvlChildren(B);
    var B1, B2 := B.right, B.left;
    var h := Height(L);
    assert Height(A) == h && Height(B) == h + 1;
    assert h - 1 <= Height(B1) <= h && h - 1 <= Height(B2) <= h;
    var R' := RotateRight(R);
    assert HeightsCorrect(R');
    var r := RotateLeft(n.(right := R'));
    assert HeightsCorrect(r);
    var X, Y := r.left, r.right;
    assert X.left == L && X.right == B2 && Y.left == B1 && Y.right == A;
    assert Max(Height(X.left), Height(X.right)) == h;
    assert Max(Height(Y.left), Height(Y.right)) == h;
    NodeIsAvl(X);
    NodeIsAvl(Y);
    NodeIsAvl(r);
  }

  /** Single rotation of a right-heavy node whose right child is not
      left-heavy. */
  lemma RightRightCase(n: Tree)
    requires n.Node? && IsAvl(n.left) && IsAvl(n.right)
    requires Height(n.right) == Height(n.left) + 2
    requires n.right.Node? && BalanceFactor(n.right) >= 0
    ensures var r := RotateLeft(n);
            IsAvl(r) && Height(n.right) <= Height(r) <= Height(n.right) + 1
  {
    var L, R := n.left, n.right;
    AvlChildren(R);
    var A, B := R.right, R.left;
    var r := RotateLeft(n);
    assert r.right == A && r.left.right == B && r.left.left == L;
    NodeIsAvl(r.left);
    NodeIsAvl(r);
  }

  /** The rebalance step restores the AVL invariant: given a node whose
      subtrees are AVL and differ in height by at most two, it returns an AVL
      subtree whose height is that of the taller subtree or one more; a node
      that was already balanced keeps height one more than its taller
      subtree. */
  lemma BalanceRestoresAvl(n: Tree)
    requires n.Node? && IsAvl(n.left) && IsAvl(n.right)
    requires -2 <= Height(n.right) - Height(n.left) <= 2
    ensures IsAvl(Balance(n))
    ensures Max(Height(n.left), Height(n.right)) <= Height(Balance(n))
              <= 1 + Max(Height(n.left), Height(n.right))
    ensures -1 <= Height(n.right) - Height(n.left) <= 1 ==>
              Height(Balance(n)) == 1 + Max(Height(n.left), Height(n.right))
  {
    var hl, hr := Height(n.left), Height(n.right);
    if hr - hl == -2 {
      assert BalanceFactor(n) < -1;
      AvlChildren(n.left);
      if BalanceFactor(n.left) > 0 {
        assert Balance(n) == RotateRight(n.(left := RotateLeft(n.left)));
        LeftRightCase(n);
      } else {
        assert Balance(n) == RotateRight(n);
        LeftLeftCase(n);
      }
    } else if hr - hl == 2 {
      assert BalanceFactor(n) > 1;
      AvlChildren(n.right);
      if BalanceFactor(n.right) < 0 {
        assert Balance(n) == RotateLeft(n.(right := RotateRight(n.right)));
        RightLeftCase(n);
      } else {
        assert Balance(n) == RotateLeft(n);
        RightRightCase(n);
      }
    } else {
      NodeIsAvl(Balance(n));
    }
  }

  /** Rebalancing a node that is already AVL returns it unchanged. */
  lemma BalanceOfAvlIsIdentity(n: Tree)
    requires n.Node? && IsAvl(n)
    ensures Balance(n) == n
  {
    AvlChildren(n);
    CachedHeightIsTrue(n);
  }

  /** The double-rotation test is needed: when the left child of a
      left-heavy node is right-heavy, a single right rotation leaves the new
      root out of balance. */
  lemma SingleRotationFailsLeftRight(n: Tree)
    requires n.Node? && IsAvl(n.left) && IsAvl(n.right)
    requires Height(n.left) == Height(n.right) + 2
    requires n.left.Node? && BalanceFactor(n.left) > 0
    ensures !Balanced(RotateRight(n))
  {
    var L := n.left;
    AvlChildren(L);
    var r := RotateRight(n);
    assert BalanceFactor(r) == Height(r.right) - Height(r.left);
  }

  /** Mirror image: a single left rotation of a right-heavy node whose right
      child is left-heavy leaves the new root out of balance. */
  lemma SingleRotationFailsRightLeft(n: Tree)
    requires n.Node? && IsAvl(n.left) && IsAvl(n.right)
    requires Height(n.right) == Height(n.left) + 2
    requires n.right.Node? && BalanceFactor(n.right) < 0
    ensures !Balanced(RotateLeft(n))
  {
    var R := n.right;
    AvlChildren(R);
    var r := RotateLeft(n);
    assert BalanceFactor(r) == Height(r.right) - Height(r.left);
  }
}
