/** Short insertion runs into an empty index and the exact trees they produce, for any names
    in the stated order: the single and double rotations of the first rebalance, and positions
    that follow insertion order rather than name order. */
module Scenarios {
  import opened StringOrder
  import opened AvlTree
  import opened AvlInsert

  /** Inserting `b` under a lone node `a` with a smaller name: `b` becomes the right child,
      stamped with the next position, and `a` leans right. */
  lemma SecondGoesRight(a: Book, b: Book, p: nat)
    requires Less(a.name, b.name)
    ensures Insert(NewNode(a, p), b, p) == (Node(Leaf, a, 2, -1, p, NewNode(b, p + 1)), p + 1)
  {
    LessAsymmetric(a.name, b.name);
    var u := UpdateHeightAndBalance(Node(Leaf, a, 1, 0, p, NewNode(b, p + 1)));
    assert Insert(Leaf, b, p) == (NewNode(b, p + 1), p + 1);
    assert Rebalance(u, b.name) == u;
  }

  /** Inserting `b` under a lone node `a` with a greater name: `b` becomes the left child. */
  lemma SecondGoesLeft(a: Book, b: Book, p: nat)
    requires Less(b.name, a.name)
    ensures Insert(NewNode(a, p), b, p) == (Node(NewNode(b, p + 1), a, 2, 1, p, Leaf), p + 1)
  {
    var u := UpdateHeightAndBalance(Node(NewNode(b, p + 1), a, 1, 0, p, Leaf));
    assert Insert(Leaf, b, p) == (NewNode(b, p + 1), p + 1);
    assert Rebalance(u, b.name) == u;
  }

  /** Three names in ascending order: the third insertion makes the root right-heavy by two
      and a single left rotation makes the middle name the root, all balances 0. */
  lemma AscendingRunRotatesLeft(a: Book, b: Book, c: Book)
    requires Less(a.name, b.name) && Less(b.name, c.name)
    ensures var t1 := Insert(Leaf, a, 0);
            var t2 := Insert(t1.0, b, t1.1);
            Insert(t2.0, c, t2.1) == (Node(NewNode(a, 1), b, 2, 0, 2, NewNode(c, 3)), 3)
  {
    LessTransitive(a.name, b.name, c.name);
    LessAsymmetric(a.name, c.name);
    assert Insert(Leaf, a, 0) == (NewNode(a, 1), 1);
    SecondGoesRight(a, b, 1);
    SecondGoesRight(b, c, 2);
    var t2 := Node(Leaf, a, 2, -1, 1, NewNode(b, 2));
    var u := UpdateHeightAndBalance(t2.(right := Node(Leaf, b, 2, -1, 2, NewNode(c, 3))));
    assert Rebalance(u, c.name) == LeftRotate(u);
  }

  /** Three names in descending order: a single right rotation at the root. */
  lemma DescendingRunRotatesRight(a: Book, b: Book, c: Book)
    requires Less(a.name, b.name) && Less(b.name, c.name)
    ensures var t1 := Insert(Leaf, c, 0);
            var t2 := Insert(t1.0, b, t1.1);
            Insert(t2.0, a, t2.1) == (Node(NewNode(a, 3), b, 2, 0, 2, NewNode(c, 1)), 3)
  {
    LessTransitive(a.name, b.name, c.name);
    assert Insert(Leaf, c, 0) == (NewNode(c, 1), 1);
    SecondGoesLeft(c, b, 1);
    SecondGoesLeft(b, a, 2);
    var t2 := Node(NewNode(b, 2), c, 2, 1, 1, Leaf);
    var u := UpdateHeightAndBalance(t2.(left := Node(NewNode(a, 3), b, 2, 1, 2, Leaf)));
    assert Rebalance(u, a.name) == RightRotate(u);
  }

  /** High, low, middle: the left-right case. The left child is rotated left, then the root
      right, and the last book inserted ends up at the root. */
  lemma LeftRightRunRotatesTwice(a: Book, b: Book, c: Book)
    requires Less(a.name, b.name) && Less(b.name, c.name)
    ensures var t1 := Insert(Leaf, c, 0);
            var t2 := Insert(t1.0, a, t1.1);
            Insert(t2.0, b, t2.1) == (Node(NewNode(a, 2), b, 2, 0, 3, NewNode(c, 1)), 3)
  {
    LessTransitive(a.name, b.name, c.name);
    LessAsymmetric(a.name, b.name);
    assert Insert(Leaf, c, 0) == (NewNode(c, 1), 1);
    SecondGoesLeft(c, a, 1);
    SecondGoesRight(a, b, 2);
    var t2 := Node(NewNode(a, 2), c, 2, 1, 1, Leaf);
    var u := UpdateHeightAndBalance(t2.(left := Node(Leaf, a, 2, -1, 2, NewNode(b, 3))));
    var x := LeftRotate(u.left);
    assert x == Node(NewNode(a, 2), b, 2, 1, 3, Leaf);
    assert RightRotate(u.(left := x)) == Node(NewNode(a, 2), b, 2, 0, 3, NewNode(c, 1));
    assert Rebalance(u, b.name) == RightRotate(u.(left := x));
  }

  /** Low, high, middle: the right-left case, the mirror image of LeftRightRunRotatesTwice. */
  lemma RightLeftRunRotatesTwice(a: Book, b: Book, c: Book)
    requires Less(a.name, b.name) && Less(b.name, c.name)
    ensures var t1 := Insert(Leaf, a, 0);
            var t2 := Insert(t1.0, c, t1.1);
            Insert(t2.0, b, t2.1) == (Node(NewNode(a, 1), b, 2, 0, 3, NewNode(c, 2)), 3)
  {
    LessTransitive(a.name, b.name, c.name);
    LessAsymmetric(a.name, b.name);
    assert Insert(Leaf, a, 0) == (NewNode(a, 1), 1);
    SecondGoesRight(a, c, 1);
    SecondGoesLeft(c, b, 2);
    var t2 := Node(Leaf, a, 2, -1, 1, NewNode(c, 2));
    var u := UpdateHeightAndBalance(t2.(right := Node(NewNode(b, 3), c, 2, 1, 2, Leaf)));
    var y := RightRotate(u.right);
    assert y == Node(Leaf, b, 2, -1, 3, NewNode(c, 2));
    assert LeftRotate(u.(right := y)) == Node(NewNode(a, 1), b, 2, 0, 3, NewNode(c, 2));
    assert Rebalance(u, b.name) == LeftRotate(u.(right := y));
  }

  /** Middle, low, high (Banana, Apple, Cherry): no rotation; the list comes out in name order
      while each position is the number of the insertion that created the node. */
  lemma PositionsFollowInsertionOrder(a: Book, b: Book, c: Book)
    requires Less(a.name, b.name) && Less(b.name, c.name)
    ensures var t1 := Insert(Leaf, b, 0);
            var t2 := Insert(t1.0, a, t1.1);
            var t3 := Insert(t2.0, c, t2.1);
            t3.1 == 3 && Contents(t3.0) == [Placed(a, 2), Placed(b, 1), Placed(c, 3)]
  {
    LessAsymmetric(b.name, c.name);
    assert Insert(Leaf, b, 0) == (NewNode(b, 1), 1);
    SecondGoesLeft(b, a, 1);
    var t2 := Node(NewNode(a, 2), b, 2, 1, 1, Leaf);
    var u := UpdateHeightAndBalance(t2.(right := NewNode(c, 3)));
    assert Insert(Leaf, c, 2) == (NewNode(c, 3), 3);
    assert Rebalance(u, c.name) == u;
  }
}
