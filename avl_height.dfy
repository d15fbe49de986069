/** Why the index is worth rebalancing: a tree whose stored fields are consistent and whose
    balances are all -1, 0 or 1 has a height logarithmic in the number of books it holds. */
module AvlHeight {
  import opened AvlTree

  /** The fewest nodes a balanced tree of height `h` can have. */
  function MinNodes(h: nat): nat {
    if h == 0 then 0
    else if h == 1 then 1
    else MinNodes(h - 1) + MinNodes(h - 2) + 1
  }

  function Pow2(n: nat): nat {
    if n == 0 then 1 else 2 * Pow2(n - 1)
  }

  /** A taller balanced tree never needs fewer nodes. */
  lemma {:induction false} MinNodesMonotone(i: nat, j: nat)
    requires i <= j
    ensures MinNodes(i) <= MinNodes(j)
    decreases j
  {
    if i < j {
      MinNodesMonotone(i, j - 1);
      if j >= 2 {
        assert MinNodes(j) == MinNodes(j - 1) + MinNodes(j - 2) + 1;
      }
    }
  }

  /** A node over children of heights `a` and `b` that differ by at most one needs no more
      than the children's minimum counts plus itself. */
  lemma MinNodesStep(a: nat, b: nat)
    requires -1 <= a - b <= 1
    ensures MinNodes(Max(a, b) + 1) <= MinNodes(a) + MinNodes(b) + 1
  {
    var m := Max(a, b);
    if m >= 1 {
      assert MinNodes(m + 1) == MinNodes(m) + MinNodes(m - 1) + 1;
      if a < b {
        MinNodesMonotone(m - 1, a);
      } else if b < a {
        MinNodesMonotone(m - 1, b);
      } else {
        MinNodesMonotone(m - 1, a);
      }
    }
  }

  /** A tree with consistent fields and every balance in -1..1 holds at least MinNodes of its
      height. */
  lemma {:induction false} BalancedTreeIsFull(t: Tree)
    requires FieldsConsistent(t) && Balanced(t)
    ensures MinNodes(Height(t)) <= |Contents(t)|
  {
    if t.Node? {
      BalancedTreeIsFull(t.left);
      BalancedTreeIsFull(t.right);
      MinNodesStep(Height(t.left), Height(t.right));
      assert |Contents(t)| == |Contents(t.left)| + 1 + |Contents(t.right)|;
    }
  }

  /** The minimum node count grows faster than the square root of two per level: two to the
      height is at most the square of the count plus one. With `a` and `b` the counts plus one
      at the two heights below, (a + b)^2 is at least a^2 + 3b^2, which covers
      2^(h-1) + 2·2^(h-2). */
  lemma {:induction false} MinNodesGrowth(h: nat)
    ensures Pow2(h) <= (MinNodes(h) + 1) * (MinNodes(h) + 1)
  {
    if h >= 2 {
      MinNodesGrowth(h - 1);
      MinNodesGrowth(h - 2);
      MinNodesMonotone(h - 2, h - 1);
      SumSquareBound(MinNodes(h - 1) + 1, MinNodes(h - 2) + 1, Pow2(h - 1), Pow2(h - 2));
    }
  }

  /** The arithmetic step of MinNodesGrowth: for b <= a, x <= a^2 and y <= b^2,
      x + 2y <= (a + b)^2. */
  lemma SumSquareBound(a: nat, b: nat, x: nat, y: nat)
    requires b <= a && x <= a * a && y <= b * b
    ensures x + 2 * y <= (a + b) * (a + b)
  {
    assert (a + b) * (a + b) == a * a + 2 * (a * b) + b * b;
    assert a * b - b * b == (a - b) * b;
  }

  /** Squaring keeps the order of naturals. */
  lemma SquareMonotone(m: nat, n: nat)
    requires m <= n
    ensures m * m <= n * n
  {
    assert n * n - m * m == (n - m) * (n + m);
  }

  /** The height of a valid index with `n` books is at most 2·log2(n + 1): two to the power of
      the height never exceeds (n + 1)^2. */
  lemma HeightIsLogarithmic(t: Tree)
    requires ValidTree(t)
    ensures Pow2(Height(t)) <= (|Contents(t)| + 1) * (|Contents(t)| + 1)
  {
    BalancedTreeIsFull(t);
    MinNodesGrowth(Height(t));
    SquareMonotone(MinNodes(Height(t)) + 1, |Contents(t)| + 1);
  }
}
