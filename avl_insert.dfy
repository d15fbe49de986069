/** Insertion into the book index: the recursive descent, the four-case rebalance that follows
    it on the way back up, and what an insertion does to the in-order contents. */
module AvlInsert {
  import opened StringOrder
  import opened AvlTree

  /** What the rebalance step needs of a node so that every rotation it may pick has the child
      it rotates around: the node's balance field is up to date, and in the two double-rotation
      cases the grandchild that moves up exists. */
  predicate RebalanceSafe(u: Tree, k: string) {
    && u.Node? && u.balance == Height(u.left) - Height(u.right)
    && (u.balance > 1 && Less(u.left.book.name, k) ==> u.left.right.Node?)
    && (u.balance < -1 && Less(k, u.right.book.name) ==> u.right.left.Node?)
  }

  /** The four AVL cases, tried in this order on a node whose fields were just recomputed,
      choosing single or double rotation by comparing the inserted name `k` with the heavy
      child's name; a node that is not out of balance comes back as it is. */
  function Rebalance(u: Tree, k: string): (r: Tree)
    requires RebalanceSafe(u, k)
    ensures r.Node?
    ensures Contents(r) == Contents(u) && Keys(r) == Keys(u)
    ensures -1 <= u.balance <= 1 ==> r == u
  {
    var balance := u.balance;
    if balance > 1 && Less(k, u.left.book.name) then
      RightRotate(u)
    else if balance < -1 && Less(u.right.book.name, k) then
      LeftRotate(u)
    else if balance > 1 && Less(u.left.book.name, k) then
      RightRotate(u.(left := LeftRotate(u.left)))
    else if balance < -1 && Less(k, u.right.book.name) then
      LeftRotate(u.(right := RightRotate(u.right)))
    else
      u
  }

  /** After an insertion of `k` made `t` one level taller, the subtree keeps its root name and
      leans toward the side `k` went to. */
  predicate LeansToward(t: Tree, t': Tree, k: string) {
    Height(t') == Height(t) + 1 && t.Node? ==>
      && t'.Node? && t'.book.name == t.book.name
      && (Less(k, t.book.name) ==> t'.balance == 1)
      && (Less(t.book.name, k) ==> t'.balance == -1)
  }

  /** `insert(root, book)` with the index's `currentPosition` threaded through: returns the new
      subtree and the new counter. A new name creates one node stamped `counter + 1`; a name
      already present leaves subtree and counter exactly as they were. The result is again a
      valid AVL tree, at most one level taller than before. */
  function Insert(t: Tree, b: Book, counter: nat): (r: (Tree, nat))
    requires ValidTree(t)
    ensures ValidTree(r.0)
    ensures Keys(r.0) == Keys(t) + {b.name}
    ensures b.name in Keys(t) ==> r == (t, counter)
    ensures b.name !in Keys(t) ==> r.1 == counter + 1
    ensures Height(t) <= Height(r.0) <= Height(t) + 1
    ensures LeansToward(t, r.0, b.name)
    decreases t
  {
    match t
    case Leaf =>
      (NewNode(b, counter + 1), counter + 1)
    case Node(l, x, _, _, _, rt) =>
      if Less(b.name, x.name) then
        var sub := Insert(l, b, counter);
        var u := UpdateHeightAndBalance(t.(left := sub.0));
        InsertedLeft(t, sub.0, b.name);
        (Rebalance(u, b.name), sub.1)
      else if Less(x.name, b.name) then
        var sub := Insert(rt, b, counter);
        var u := UpdateHeightAndBalance(t.(right := sub.0));
        InsertedRight(t, sub.0, b.name);
        (Rebalance(u, b.name), sub.1)
      else
        LessTotal(b.name, x.name);
        (t, counter)
  }

  /** Left-left case: a right rotation of a node whose left child is two levels taller than
      its right one and leans left gives a valid tree whose height is the right child's plus 2. */
  lemma RightRotationRestores(u: Tree)
    requires u.Node? && u.left.Node? && Ordered(u)
    requires ValidTree(u.left) && ValidTree(u.right)
    requires Height(u.left) == Height(u.right) + 2 && u.left.balance == 1
    ensures ValidTree(RightRotate(u)) && Height(RightRotate(u)) == Height(u.right) + 2
  {
    var r := RightRotate(u);
    RightRotateOrdered(u);
    assert Height(u.left.left) == Height(u.right) + 1 && Height(u.left.right) == Height(u.right);
    assert r.right.height == Height(u.right) + 1 && r.right.balance == 0;
  }

  /** Right-right case, the mirror image of RightRotationRestores. */
  lemma LeftRotationRestores(u: Tree)
    requires u.Node? && u.right.Node? && Ordered(u)
    requires ValidTree(u.left) && ValidTree(u.right)
    requires Height(u.right) == Height(u.left) + 2 && u.right.balance == -1
    ensures ValidTree(LeftRotate(u)) && Height(LeftRotate(u)) == Height(u.left) + 2
  {
    var r := LeftRotate(u);
    LeftRotateOrdered(u);
    assert Height(u.right.right) == Height(u.left) + 1 && Height(u.right.left) == Height(u.left);
    assert r.left.height == Height(u.left) + 1 && r.left.balance == 0;
  }

  /** Left-right case: rotating the left child left and then the node right, when the left
      child is two levels taller than the right one and leans right, gives a valid tree whose
      height is the right child's plus 2. */
  lemma LeftRightRotationRestores(u: Tree)
    requires u.Node? && u.left.Node? && u.left.right.Node? && Ordered(u)
    requires ValidTree(u.left) && ValidTree(u.right)
    requires Height(u.left) == Height(u.right) + 2 && u.left.balance == -1
    ensures var r := RightRotate(u.(left := LeftRotate(u.left)));
            ValidTree(r) && Height(r) == Height(u.right) + 2
  {
    var h := Height(u.right);
    var v := LeftRotate(u.left);
    var u2 := u.(left := v);
    var r := RightRotate(u2);
    LeftRotateOrdered(u.left);
    assert Ordered(u2);
    RightRotateOrdered(u2);
    var z := u.left.right;
    assert Height(z) == h + 1 && Height(u.left.left) == h;
    assert Balanced(z) && FieldsConsistent(z);
    assert h - 1 <= Height(z.left) <= h && h - 1 <= Height(z.right) <= h;
    assert v.left.height == h + 1 && -1 <= v.left.balance <= 1;
    assert r.right.height == h + 1 && -1 <= r.right.balance <= 1;
  }

  /** Right-left case, the mirror image of LeftRightRotationRestores. */
  lemma RightLeftRotationRestores(u: Tree)
    requires u.Node? && u.right.Node? && u.right.left.Node? && Ordered(u)
    requires ValidTree(u.left) && ValidTree(u.right)
    requires Height(u.right) == Height(u.left) + 2 && u.right.balance == 1
    ensures var r := LeftRotate(u.(right := RightRotate(u.right)));
            ValidTree(r) && Height(r) == Height(u.left) + 2
  {
    var h := Height(u.left);
    var v := RightRotate(u.right);
    var u2 := u.(right := v);
    var r := LeftRotate(u2);
    RightRotateOrdered(u.right);
    assert Ordered(u2);
    LeftRotateOrdered(u2);
    var z := u.right.left;
    assert Height(z) == h + 1 && Height(u.right.right) == h;
    assert Balanced(z) && FieldsConsistent(z);
    assert h - 1 <= Height(z.left) <= h && h - 1 <= Height(z.right) <= h;
    assert v.right.height == h + 1 && -1 <= v.right.balance <= 1;
    assert r.left.height == h + 1 && -1 <= r.left.balance <= 1;
  }

  /** What an insertion of `k` into `t` promises about its result `t'`. */
  predicate InsertedOk(t: Tree, t': Tree, k: string) {
    && ValidTree(t') && Keys(t') == Keys(t) + {k}
    && (k in Keys(t) ==> t' == t)
    && Height(t) <= Height(t') <= Height(t) + 1
    && LeansToward(t, t', k)
  }

  /** The step of Insert after the descent went left: given what the recursive call promises
      about the new left subtree, the recomputed and rebalanced node keeps Insert's promises. */
  lemma InsertedLeft(t: Tree, l': Tree, k: string)
    requires ValidTree(t) && t.Node? && Less(k, t.book.name)
    requires InsertedOk(t.left, l', k)
    ensures k in Keys(t) <==> k in Keys(t.left)
    ensures RebalanceSafe(UpdateHeightAndBalance(t.(left := l')), k)
    ensures InsertedOk(t, Rebalance(UpdateHeightAndBalance(t.(left := l')), k), k)
  {
    var u := UpdateHeightAndBalance(t.(left := l'));
    LessIrreflexive(k);
    LessAsymmetric(k, t.book.name);
    assert k !in Keys(t.right);
    assert Ordered(u);
    if u.balance <= 1 {
      LeftUnrotated(t, l', k);
    } else {
      LeftRotated(t, l', k);
    }
  }

  /** InsertedLeft when the recomputed node is not left-heavy by two: no rotation. */
  lemma LeftUnrotated(t: Tree, l': Tree, k: string)
    requires ValidTree(t) && t.Node? && Less(k, t.book.name) && k !in Keys(t.right)
    requires InsertedOk(t.left, l', k)
    requires Ordered(UpdateHeightAndBalance(t.(left := l')))
    requires UpdateHeightAndBalance(t.(left := l')).balance <= 1
    ensures RebalanceSafe(UpdateHeightAndBalance(t.(left := l')), k)
    ensures InsertedOk(t, Rebalance(UpdateHeightAndBalance(t.(left := l')), k), k)
  {
    var u := UpdateHeightAndBalance(t.(left := l'));
    LessAsymmetric(k, t.book.name);
    assert Rebalance(u, k) == u;
  }

  /** InsertedLeft when the recomputed node is left-heavy by two: the left side grew from one
      level taller than the right to two, and the rotation the inserted name selects restores
      the node's old height. */
  lemma LeftRotated(t: Tree, l': Tree, k: string)
    requires ValidTree(t) && t.Node? && Less(k, t.book.name) && k !in Keys(t.right)
    requires InsertedOk(t.left, l', k)
    requires Ordered(UpdateHeightAndBalance(t.(left := l')))
    requires UpdateHeightAndBalance(t.(left := l')).balance > 1
    ensures RebalanceSafe(UpdateHeightAndBalance(t.(left := l')), k)
    ensures InsertedOk(t, Rebalance(UpdateHeightAndBalance(t.(left := l')), k), k)
  {
    var l, rt := t.left, t.right;
    var u := UpdateHeightAndBalance(t.(left := l'));
    assert Height(l) == Height(rt) + 1 && Height(l') == Height(l) + 1;
    assert Height(t) == Height(rt) + 2;
    assert k !in Keys(t) by {
      LessIrreflexive(k);
    }
    assert l.Node? && l'.Node? && l'.book.name == l.book.name;
    assert l.book.name in Keys(l);
    LessTotal(k, l.book.name);
    var r := Rebalance(u, k);
    if Less(k, l.book.name) {
      RightRotationRestores(u);
      assert r == RightRotate(u);
    } else {
      LessAsymmetric(l.book.name, k);
      LeftRightRotationRestores(u);
      assert r == RightRotate(u.(left := LeftRotate(u.left)));
    }
    assert Height(r) == Height(t);
  }

  /** The mirror image of InsertedLeft, after the descent went right. */
  lemma InsertedRight(t: Tree, r': Tree, k: string)
    requires ValidTree(t) && t.Node? && Less(t.book.name, k)
    requires InsertedOk(t.right, r', k)
    ensures k in Keys(t) <==> k in Keys(t.right)
    ensures RebalanceSafe(UpdateHeightAndBalance(t.(right := r')), k)
    ensures InsertedOk(t, Rebalance(UpdateHeightAndBalance(t.(right := r')), k), k)
  {
    var u := UpdateHeightAndBalance(t.(right := r'));
    LessIrreflexive(k);
    LessAsymmetric(t.book.name, k);
    assert k !in Keys(t.left);
    assert Ordered(u);
    if u.balance >= -1 {
      RightUnrotated(t, r', k);
    } else {
      RightRotated(t, r', k);
    }
  }

  /** InsertedRight when the recomputed node is not right-heavy by two: no rotation. */
  lemma RightUnrotated(t: Tree, r': Tree, k: string)
    requires ValidTree(t) && t.Node? && Less(t.book.name, k) && k !in Keys(t.left)
    requires InsertedOk(t.right, r', k)
    requires Ordered(UpdateHeightAndBalance(t.(right := r')))
    requires UpdateHeightAndBalance(t.(right := r')).balance >= -1
    ensures RebalanceSafe(UpdateHeightAndBalance(t.(right := r')), k)
    ensures InsertedOk(t, Rebalance(UpdateHeightAndBalance(t.(right := r')), k), k)
  {
    var u := UpdateHeightAndBalance(t.(right := r'));
    LessAsymmetric(t.book.name, k);
    assert Rebalance(u, k) == u;
  }

  /** InsertedRight when the recomputed node is right-heavy by two. */
  lemma RightRotated(t: Tree, r': Tree, k: string)
    requires ValidTree(t) && t.Node? && Less(t.book.name, k) && k !in Keys(t.left)
    requires InsertedOk(t.right, r', k)
    requires Ordered(UpdateHeightAndBalance(t.(right := r')))
    requires UpdateHeightAndBalance(t.(right := r')).balance < -1
    ensures RebalanceSafe(UpdateHeightAndBalance(t.(right := r')), k)
    ensures InsertedOk(t, Rebalance(UpdateHeightAndBalance(t.(right := r')), k), k)
  {
    var l, rt := t.left, t.right;
    var u := UpdateHeightAndBalance(t.(right := r'));
    assert Height(rt) == Height(l) + 1 && Height(r') == Height(rt) + 1;
    assert Height(t) == Height(l) + 2;
    assert k !in Keys(t) by {
      LessIrreflexive(k);
    }
    assert rt.Node? && r'.Node? && r'.book.name == rt.book.name;
    assert rt.book.name in Keys(rt);
    LessTotal(k, rt.book.name);
    var r := Rebalance(u, k);
    if Less(rt.book.name, k) {
      LessAsymmetric(rt.book.name, k);
      LeftRotationRestores(u);
      assert r == LeftRotate(u);
    } else {
      LessAsymmetric(k, rt.book.name);
      RightLeftRotationRestores(u);
      assert r == LeftRotate(u.(right := RightRotate(u.right)));
    }
    assert Height(r) == Height(t);
  }

  /** Reference definition of where a new book goes in a name-ordered list: in front of the
      first element whose name is greater, or at the end. */
  function InsertSorted(s: seq<Placed>, e: Placed): (r: seq<Placed>)
    ensures |r| == |s| + 1
    ensures multiset(r) == multiset(s) + multiset{e}
  {
    if s == [] || Less(e.book.name, s[0].book.name) then [e] + s
    else
      assert s == [s[0]] + s[1..];
      [s[0]] + InsertSorted(s[1..], e)
  }

  /** InsertSorted leaves the old list intact around the one new element. */
  lemma {:induction false} InsertSortedSplit(s: seq<Placed>, e: Placed) returns (i: nat)
    ensures i <= |s| && InsertSorted(s, e) == s[..i] + [e] + s[i..]
  {
    if s == [] || Less(e.book.name, s[0].book.name) {
      i := 0;
    } else {
      var j := InsertSortedSplit(s[1..], e);
      i := j + 1;
      assert s[..i] == [s[0]] + s[1..][..j];
      assert s[i..] == s[1..][j..];
    }
  }

  /** A name smaller than `x`'s goes into the part of the list before `x`. */
  lemma {:induction false} InsertSortedBefore(A: seq<Placed>, x: Placed, B: seq<Placed>, e: Placed)
    requires Less(e.book.name, x.book.name)
    ensures InsertSorted(A + [x] + B, e) == InsertSorted(A, e) + [x] + B
  {
    if A == [] {
      assert A + [x] + B == [x] + B;
    } else {
      assert (A + [x] + B)[0] == A[0];
      assert (A + [x] + B)[1..] == A[1..] + [x] + B;
      InsertSortedBefore(A[1..], x, B, e);
    }
  }

  /** A name greater than `x`'s and than every name before it goes into the part after `x`. */
  lemma {:induction false} InsertSortedAfter(A: seq<Placed>, x: Placed, B: seq<Placed>, e: Placed)
    requires forall a <- A :: Less(a.book.name, e.book.name)
    requires Less(x.book.name, e.book.name)
    ensures InsertSorted(A + [x] + B, e) == A + [x] + InsertSorted(B, e)
  {
    if A == [] {
      assert A + [x] + B == [x] + B;
      LessAsymmetric(x.book.name, e.book.name);
      assert ([x] + B)[1..] == B;
    } else {
      assert A[0] in A;
      LessAsymmetric(A[0].book.name, e.book.name);
      assert (A + [x] + B)[0] == A[0];
      assert (A + [x] + B)[1..] == A[1..] + [x] + B;
      InsertSortedAfter(A[1..], x, B, e);
    }
  }

  /** Inserting a new name puts exactly one new entry, the book stamped `counter + 1`, into the
      in-order contents, at its place in name order; every other book keeps its place and its
      position, whatever rotations happened on the way. */
  lemma {:induction false} InsertPlacesNewBook(t: Tree, b: Book, counter: nat)
    requires ValidTree(t) && b.name !in Keys(t)
    ensures Contents(Insert(t, b, counter).0) == InsertSorted(Contents(t), Placed(b, counter + 1))
    decreases t
  {
    var e := Placed(b, counter + 1);
    match t
    case Leaf =>
    case Node(l, x, _, _, p, rt) =>
      LessTotal(b.name, x.name);
      if Less(b.name, x.name) {
        InsertPlacesNewBook(l, b, counter);
        InsertSortedBefore(Contents(l), Placed(x, p), Contents(rt), e);
      } else {
        assert Less(x.name, b.name);
        InsertPlacesNewBook(rt, b, counter);
        ContentsInKeys(l);
        forall a <- Contents(l)
          ensures Less(a.book.name, b.name)
        {
          LessTransitive(a.book.name, x.name, b.name);
        }
        InsertSortedAfter(Contents(l), Placed(x, p), Contents(rt), e);
      }
  }
}
