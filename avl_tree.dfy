/** The nodes of the book index: what a node stores, what a well-formed index looks like,
    the in-order traversal, the recomputation of the stored height and balance fields and
    the two rotations. */
module AvlTree {
  import opened StringOrder

  /** A book record as loaded from the catalog; the index orders books by `name` only. */
  datatype Book = Book(name: string, author: string, genre: string, image: string, link: string)

  /** A subtree: absent (`null`), or a node with its stored `height` and `balance` fields and
      the insertion-sequence number `position` it was stamped with when it was created. */
  datatype Tree =
    | Leaf
    | Node(left: Tree, book: Book, height: nat, balance: int, position: nat, right: Tree)

  /** A stored book together with the position of the node that holds it. */
  datatype Placed = Placed(book: Book, position: nat)

  /** One element of the materialised list: the book, its node's position and current balance. */
  datatype Entry = Entry(book: Book, position: nat, balance: int)

  /** Names strictly ascending along the materialised list. */
  predicate Ascending(s: seq<Entry>) {
    forall i, j :: 0 <= i < j < |s| ==> Less(s[i].book.name, s[j].book.name)
  }

  function Max(a: nat, b: nat): nat {
    if a < b then b else a
  }

  /** The stored height of a subtree, 0 when it is absent. */
  function Height(t: Tree): nat {
    if t.Node? then t.height else 0
  }

  /** The actual height of a subtree, computed from its shape. */
  function Depth(t: Tree): nat {
    match t
    case Leaf => 0
    case Node(l, _, _, _, _, r) => Max(Depth(l), Depth(r)) + 1
  }

  /** The set of names stored in a subtree. */
  function Keys(t: Tree): set<string> {
    match t
    case Leaf => {}
    case Node(l, b, _, _, _, r) => Keys(l) + {b.name} + Keys(r)
  }

  /** The books of a subtree with their positions, in in-order (left, node, right). */
  function Contents(t: Tree): seq<Placed> {
    match t
    case Leaf => []
    case Node(l, b, _, _, p, r) => Contents(l) + [Placed(b, p)] + Contents(r)
  }

  /** The sequence of (book, position, balance) triples the traversal hands to its callback. */
  function InOrder(t: Tree): seq<Entry> {
    match t
    case Leaf => []
    case Node(l, b, _, bal, p, r) => InOrder(l) + [Entry(b, p, bal)] + InOrder(r)
  }

  /** Binary-search ordering: every name on the left is smaller than the node's name and every
      name on the right is greater. */
  predicate Ordered(t: Tree) {
    match t
    case Leaf => true
    case Node(l, b, _, _, _, r) =>
      && Ordered(l) && Ordered(r)
      && (forall k <- Keys(l) :: Less(k, b.name))
      && (forall k <- Keys(r) :: Less(b.name, k))
  }

  /** Every node's stored `height` is one more than the taller child's, and its stored
      `balance` is the left child's height minus the right child's. */
  predicate FieldsConsistent(t: Tree) {
    match t
    case Leaf => true
    case Node(l, _, h, bal, _, r) =>
      && FieldsConsistent(l) && FieldsConsistent(r)
      && h == Max(Height(l), Height(r)) + 1
      && bal == Height(l) - Height(r)
  }

  /** Every node's stored balance is -1, 0 or 1. */
  predicate Balanced(t: Tree) {
    match t
    case Leaf => true
    case Node(l, _, _, bal, _, r) => Balanced(l) && Balanced(r) && -1 <= bal <= 1
  }

  /** The invariant the index keeps after every insertion. */
  predicate ValidTree(t: Tree) {
    Ordered(t) && FieldsConsistent(t) && Balanced(t)
  }

  /** Every name in the in-order contents is one of the subtree's keys. */
  lemma {:induction false} ContentsInKeys(t: Tree)
    ensures forall e <- Contents(t) :: e.book.name in Keys(t)
  {
    if t.Node? {
      ContentsInKeys(t.left);
      ContentsInKeys(t.right);
    }
  }

  /** The traversal hands over exactly one entry per stored book, in the same order, carrying
      the node's position; in a balanced tree every balance it reports is -1, 0 or 1. */
  lemma {:induction false} InOrderMatchesContents(t: Tree)
    ensures |InOrder(t)| == |Contents(t)|
    ensures forall i :: 0 <= i < |InOrder(t)| ==>
              InOrder(t)[i].book == Contents(t)[i].book && InOrder(t)[i].position == Contents(t)[i].position
    ensures Balanced(t) ==> forall e <- InOrder(t) :: -1 <= e.balance <= 1
  {
    if t.Node? {
      InOrderMatchesContents(t.left);
      InOrderMatchesContents(t.right);
      var L, R := InOrder(t.left), InOrder(t.right);
      var CL, CR := Contents(t.left), Contents(t.right);
      assert InOrder(t) == L + [Entry(t.book, t.position, t.balance)] + R;
      assert Contents(t) == CL + [Placed(t.book, t.position)] + CR;
    }
  }

  /** Consistent stored fields describe the actual shape: the stored height is the real height
      and the stored balance is the difference of the children's real heights. */
  lemma {:induction false} StoredFieldsMatchShape(t: Tree)
    requires FieldsConsistent(t)
    ensures Height(t) == Depth(t)
    ensures t.Node? ==> t.balance == Depth(t.left) - Depth(t.right)
  {
    if t.Node? {
      StoredFieldsMatchShape(t.left);
      StoredFieldsMatchShape(t.right);
    }
  }

  /** A node as `new Node(book)` builds it, stamped with `position`. */
  function NewNode(b: Book, position: nat): (r: Tree)
    ensures ValidTree(r)
    ensures Keys(r) == {b.name} && Contents(r) == [Placed(b, position)]
  {
    Node(Leaf, b, 1, 0, position, Leaf)
  }

  /** Recomputes the stored height and balance of a node from its children's stored heights;
      an absent subtree is left alone. Nothing but those two fields changes. */
  function UpdateHeightAndBalance(t: Tree): (r: Tree)
    ensures r.Node? == t.Node?
    ensures t.Node? ==> r.left == t.left && r.right == t.right && r.book == t.book && r.position == t.position
    ensures Contents(r) == Contents(t) && Keys(r) == Keys(t)
    ensures Ordered(r) == Ordered(t)
    ensures t.Node? && FieldsConsistent(t.left) && FieldsConsistent(t.right) ==> FieldsConsistent(r)
  {
    match t
    case Leaf => Leaf
    case Node(l, b, _, _, p, rt) => Node(l, b, Max(Height(l), Height(rt)) + 1, Height(l) - Height(rt), p, rt)
  }

  /** Right rotation at `y`: its left child `x` becomes the subtree root, `y` becomes `x`'s right
      child and `x`'s former right subtree T2 becomes `y`'s left child; `y` is recomputed first,
      then `x`. The in-order contents are unchanged and the three subtrees below the two nodes
      are reused as they are. */
  function RightRotate(y: Tree): (r: Tree)
    requires y.Node? && y.left.Node?
    ensures r.Node? && r.right.Node?
    ensures r.book == y.left.book && r.position == y.left.position
    ensures r.right.book == y.book && r.right.position == y.position
    ensures r.left == y.left.left && r.right.left == y.left.right && r.right.right == y.right
    ensures Contents(r) == Contents(y) && Keys(r) == Keys(y)
    ensures FieldsConsistent(y.left.left) && FieldsConsistent(y.left.right) && FieldsConsistent(y.right) ==>
              FieldsConsistent(r)
  {
    var x := y.left;
    var t2 := x.right;
    var y' := UpdateHeightAndBalance(y.(left := t2));
    UpdateHeightAndBalance(x.(right := y'))
  }

  /** Left rotation at `x`, the mirror image of RightRotate. */
  function LeftRotate(x: Tree): (r: Tree)
    requires x.Node? && x.right.Node?
    ensures r.Node? && r.left.Node?
    ensures r.book == x.right.book && r.position == x.right.position
    ensures r.left.book == x.book && r.left.position == x.position
    ensures r.left.left == x.left && r.left.right == x.right.left && r.right == x.right.right
    ensures Contents(r) == Contents(x) && Keys(r) == Keys(x)
    ensures FieldsConsistent(x.left) && FieldsConsistent(x.right.left) && FieldsConsistent(x.right.right) ==>
              FieldsConsistent(r)
  {
    var y := x.right;
    var t2 := y.left;
    var x' := UpdateHeightAndBalance(x.(right := t2));
    UpdateHeightAndBalance(y.(left := x'))
  }

  /** A right rotation keeps a binary search tree ordered. */
  lemma RightRotateOrdered(y: Tree)
    requires y.Node? && y.left.Node? && Ordered(y)
    ensures Ordered(RightRotate(y))
  {
    var x := y.left;
    assert x.book.name in Keys(x);
    forall k | k in Keys(y.right)
      ensures Less(x.book.name, k)
    {
      LessTransitive(x.book.name, y.book.name, k);
    }
  }

  /** A left rotation keeps a binary search tree ordered. */
  lemma LeftRotateOrdered(x: Tree)
    requires x.Node? && x.right.Node? && Ordered(x)
    ensures Ordered(LeftRotate(x))
  {
    var y := x.right;
    assert y.book.name in Keys(y);
    forall k | k in Keys(x.left)
      ensures Less(k, y.book.name)
    {
      LessTransitive(k, x.book.name, y.book.name);
    }
  }

  /** In-order traversal of a binary search tree lists the names in strictly ascending order. */
  lemma {:induction false} ContentsAscending(t: Tree)
    requires Ordered(t)
    ensures forall i, j :: 0 <= i < j < |Contents(t)| ==>
              Less(Contents(t)[i].book.name, Contents(t)[j].book.name)
  {
    if t.Node? {
      ContentsAscending(t.left);
      ContentsAscending(t.right);
      ContentsInKeys(t.left);
      ContentsInKeys(t.right);
      var L, R := Contents(t.left), Contents(t.right);
      var x := t.book.name;
      var s := Contents(t);
      assert s == L + [Placed(t.book, t.position)] + R;
      forall i, j | 0 <= i < j < |s|
        ensures Less(s[i].book.name, s[j].book.name)
      {
        if j < |L| {
        } else if i < |L| && j == |L| {
          assert L[i] in L;
        } else if i < |L| {
          assert L[i] in L && R[j - |L| - 1] in R;
          LessTransitive(s[i].book.name, x, s[j].book.name);
        } else if i == |L| {
          assert R[j - |L| - 1] in R;
        }
      }
    }
  }
}
