/**
 * The driver scenario: insert the keys 0 .. NumTestElems - 1 into a new
 * tree, in increasing order, then look every one of them up.
 */
module TestAvl {
  import opened AvlNode
  import opened AvlTree

  const NumTestElems: nat := 16

  /** The keys 0 .. n - 1, once each. */
  function Range(n: nat): (s: multiset<int>)
    ensures |s| == n
    ensures forall i :: i in s <==> 0 <= i < n
  {
    if n == 0 then multiset{} else Range(n - 1) + multiset{n - 1}
  }

  /** Inserts 0 .. count - 1 into a new tree and finds each of them again;
      a lookup that failed would stop the run, as the driver's assertion
      does. */
  method InsertThenContains(count: nat) returns (t: Avl)
    ensures fresh(t) && t.Valid()
    ensures t.Contents() == Range(count)
  {
    t := new Avl();
    var i := 0;
    while i < count
      invariant 0 <= i <= count
      invariant fresh(t) && t.Valid() && t.Contents() == Range(i)
    {
      t.Insert(i);
      i := i + 1;
    }
    i := 0;
    while i < count
      invariant 0 <= i <= count
      invariant t.Valid() && t.Contents() == Range(count)
    {
      var c := t.Contains(i);
      assert c;
      i := i + 1;
    }
  }

  /** The driver's own run: sixteen keys, in a tree of height at most 4. */
  method Driver() returns (t: Avl)
    ensures fresh(t) && t.Valid()
    ensures t.Contents() == Range(NumTestElems)
    ensures Height(t.root) <= 4
  {
    t := InsertThenContains(NumTestElems);
    SixteenKeysHeight(t.root);
  }

  /** An AVL tree of at most sixteen keys has height at most 4: one of
      height 5 or more holds at least MinSize(5) = 20 keys. */
  lemma SixteenKeysHeight(t: Tree)
    requires IsAvl(t) && |Elements(t)| <= 16
    ensures Height(t) <= 4
  {
    if Height(t) > 4 {
      AvlMinSize(t);
      MinSizeMonotonic(5, Height(t));
    }
  }
}
