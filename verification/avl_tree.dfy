/**
 * The tree handle: an object holding the root of the node structure. Its
 * operations replace the root with the subtree returned by the recursive
 * helpers, and search, empty and clear it with loops.
 */
module AvlTree {
  import opened AvlNode
  import opened AvlBalance
  import opened AvlInsert
  import opened AvlRemove

  class Avl {
    var root: Tree

    /** The class invariant: the keys are ordered, the cached heights are
        right and every node is balanced. */
    ghost predicate Valid()
      reads this
    {
      Ordered(root) && IsAvl(root)
    }

    /** The keys the tree holds, with their multiplicities. */
    ghost function Contents(): multiset<int>
      reads this
    {
      Elements(root)
    }

    /** A new tree has no root. */
    constructor ()
      ensures Valid() && root == Nil && Contents() == multiset{}
    {
      root := Nil;
    }

    /** Whether the tree has no root. */
    method IsEmpty() returns (empty: bool)
      ensures empty <==> root == Nil
      ensures empty <==> Contents() == multiset{}
    {
      empty := root.Nil?;
      if root.Node? {
        assert root.val in Contents();
      }
    }

    /** Inserts one more copy of val; the height of the whole tree grows by
        at most one. */
    method Insert(val: int)
      requires Valid()
      modifies this
      ensures Valid()
      ensures root == SubtreeInsert(val, old(root))
      ensures Contents() == old(Contents()) + multiset{val}
      ensures Height(old(root)) <= Height(root) <= Height(old(root)) + 1
    {
      InsertPreservesAvl(val, root);
      root := SubtreeInsert(val, root);
    }

    /** Removes one copy of val if there is one, and leaves the tree as it
        was otherwise; the height of the whole tree drops by at most one. */
    method Remove(val: int)
      requires Valid()
      modifies this
      ensures Valid()
      ensures root == SubtreeRemove(val, old(root))
      ensures Contents() == old(Contents()) - multiset{val}
      ensures val !in old(Contents()) ==> root == old(root)
      ensures Height(old(root)) - 1 <= Height(root) <= Height(old(root))
    {
      RemovePreservesAvl(val, root);
      if val !in Contents() {
        RemoveAbsentIsIdentity(val, root);
      }
      root := SubtreeRemove(val, root);
    }

    /** Iterative search from the root: stop at a node holding val, go left
        for a smaller key and right for a larger one. */
    method Contains(val: int) returns (found: bool)
      requires Valid()
      ensures found <==> val in Contents()
    {
      var cur := root;
      while cur.Node?
        invariant Ordered(cur)
        invariant val in Contents() <==> val in Elements(cur)
        decreases cur
      {
        if val == cur.val {
          return true;
        } else if val < cur.val {
          SearchLeft(cur, val);
          cur := cur.left;
        } else {
          SearchRight(cur, val);
          cur := cur.right;
        }
      }
      return false;
    }

    /** Empties the tree by removing the root's key until no root is left. */
    method Free()
      requires Valid()
      modifies this
      ensures Valid() && root == Nil && Contents() == multiset{}
    {
      var empty := IsEmpty();
      while !empty
        invariant Valid()
        invariant empty <==> root == Nil
        decreases |Contents()|
      {
        assert root.val in Contents();
        Remove(root.val);
        empty := IsEmpty();
      }
    }
  }

  /** A key below the node's key can only be in its left subtree. */
  lemma SearchLeft(n: Tree, val: int)
    requires n.Node? && Ordered(n) && val < n.val
    ensures Ordered(n.left)
    ensures val in Elements(n) <==> val in Elements(n.left)
  {
  }

  /** A key above the node's key can only be in its right subtree. */
  lemma SearchRight(n: Tree, val: int)
    requires n.Node? && Ordered(n) && n.val < val
    ensures Ordered(n.right)
    ensures val in Elements(n) <==> val in Elements(n.right)
  {
  }
}
