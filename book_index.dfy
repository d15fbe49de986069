/** The AVLTree object of the catalog page: it owns the root of the index and the counter that
    stamps every new node with its insertion-sequence number. */
module BookIndex {
  import opened StringOrder
  import opened AvlTree
  import opened AvlInsert

  /** Every stored position lies between 1 and `counter`, and no two nodes share one. */
  predicate PositionsFresh(s: seq<Placed>, counter: nat) {
    && (forall i :: 0 <= i < |s| ==> 1 <= s[i].position <= counter)
    && (forall i, j :: 0 <= i < j < |s| ==> s[i].position != s[j].position)
  }

  /** Adding a book stamped with the next counter value keeps the positions distinct and
      within the advanced counter, keeps every earlier entry, and the new stamp is greater than
      every earlier one. */
  lemma NextPositionIsFresh(s: seq<Placed>, e: Placed, counter: nat)
    requires PositionsFresh(s, counter) && e.position == counter + 1
    ensures PositionsFresh(InsertSorted(s, e), counter + 1)
  {
    var i := InsertSortedSplit(s, e);
    var r := InsertSorted(s, e);
    assert forall k :: 0 <= k < i ==> r[k] == s[k];
    assert r[i] == e;
    assert forall k :: i < k < |r| ==> r[k] == s[k - 1];
    forall a, b | 0 <= a < b < |r|
      ensures r[a].position != r[b].position
    {
      if a < i && b > i {
        assert r[b] == s[b - 1];
      } else if a > i {
        assert r[a] == s[a - 1] && r[b] == s[b - 1];
      }
    }
  }

  /** The earlier entries all survive the insertion, each with a smaller position than the
      new one. */
  lemma NextPositionIsLargest(s: seq<Placed>, e: Placed, counter: nat)
    requires PositionsFresh(s, counter) && e.position == counter + 1
    ensures forall p <- s :: p in InsertSorted(s, e) && p.position < e.position
  {
    forall p <- s
      ensures p in InsertSorted(s, e)
    {
      assert p in multiset(InsertSorted(s, e));
    }
  }

  /** One `insert` on the index keeps its positions fresh; a new book's node carries the next
      stamp, which is greater than every earlier node's, and every earlier book is still
      stored with the position it was created with. */
  lemma InsertKeepsPositions(t: Tree, b: Book, counter: nat)
    requires ValidTree(t) && PositionsFresh(Contents(t), counter)
    ensures var r := Insert(t, b, counter);
            && PositionsFresh(Contents(r.0), r.1)
            && (b.name !in Keys(t) ==>
                  && Contents(r.0) == InsertSorted(Contents(t), Placed(b, r.1))
                  && forall p <- Contents(t) :: p in Contents(r.0) && p.position < r.1)
  {
    var r := Insert(t, b, counter);
    if b.name in Keys(t) {
      assert r == (t, counter);
    } else {
      assert r.1 == counter + 1;
      InsertPlacesNewBook(t, b, counter);
      NextPositionIsFresh(Contents(t), Placed(b, counter + 1), counter);
      NextPositionIsLargest(Contents(t), Placed(b, counter + 1), counter);
    }
  }

  /** What the materialised list of a valid index looks like: names strictly ascending, no
      position twice, every position a stamp the counter has handed out, every balance -1, 0
      or 1. */
  lemma InOrderOfValidIndex(t: Tree, counter: nat)
    requires ValidTree(t) && PositionsFresh(Contents(t), counter)
    ensures var s := InOrder(t);
            && Ascending(s)
            && (forall i, j :: 0 <= i < j < |s| ==> s[i].position != s[j].position)
            && (forall e <- s :: -1 <= e.balance <= 1 && 1 <= e.position <= counter)
  {
    var s, c := InOrder(t), Contents(t);
    ContentsAscending(t);
    InOrderMatchesContents(t);
    assert forall i :: 0 <= i < |s| ==> s[i].book.name == c[i].book.name && s[i].position == c[i].position;
    forall e <- s
      ensures 1 <= e.position <= counter
    {
      var i :| 0 <= i < |s| && s[i] == e;
      assert e.position == c[i].position;
    }
  }

  class AVLTree {
    var root: Tree
    var currentPosition: nat

    /** The index is a valid AVL tree and its positions are exactly stamps the counter has
        handed out, each at most once. */
    ghost predicate Valid()
      reads this
    {
      ValidTree(root) && PositionsFresh(Contents(root), currentPosition)
    }

    /** An empty index whose counter starts at 0. */
    constructor ()
      ensures Valid() && root == Leaf && currentPosition == 0
    {
      root := Leaf;
      currentPosition := 0;
    }

    /** `insertBook(book)`: `root = insert(root, book)`, with the counter advanced by the
        descent exactly when it creates a node. The new root is exactly the tree Insert builds,
        so every shape and balance fact proved about Insert holds for the object. */
    method InsertBook(book: Book)
      requires Valid()
      modifies this
      ensures (root, currentPosition) == Insert(old(root), book, old(currentPosition))
      ensures Valid()
      ensures Keys(root) == old(Keys(root)) + {book.name}
      ensures book.name in old(Keys(root)) ==>
                root == old(root) && currentPosition == old(currentPosition)
      ensures book.name !in old(Keys(root)) ==>
                && currentPosition == old(currentPosition) + 1
                && Contents(root) == InsertSorted(old(Contents(root)), Placed(book, currentPosition))
                && (forall p <- old(Contents(root)) :: p in Contents(root) && p.position < currentPosition)
    {
      var r := Insert(root, book, currentPosition);
      InsertKeepsPositions(root, book, currentPosition);
      root, currentPosition := r.0, r.1;
    }

    /** `inOrder(root, callback)` with the callback that `getBooks` passes: appends one entry
        per node of `t`, left subtree first, to what has been collected so far. */
    method CollectInOrder(t: Tree, acc: seq<Entry>) returns (out: seq<Entry>)
      ensures out == acc + InOrder(t)
      decreases t
    {
      out := acc;
      if t.Node? {
        out := CollectInOrder(t.left, out);
        out := out + [Entry(t.book, t.position, t.balance)];
        out := CollectInOrder(t.right, out);
      }
    }

    /** `getBooks()`: one entry per node, names strictly ascending, each with its node's
        position and current balance; the index is only read. */
    method GetBooks() returns (books: seq<Entry>)
      requires Valid()
      ensures books == InOrder(root)
      ensures Ascending(books)
      ensures forall i, j :: 0 <= i < j < |books| ==> books[i].position != books[j].position
      ensures forall e <- books :: -1 <= e.balance <= 1 && 1 <= e.position <= currentPosition
    {
      books := CollectInOrder(root, []);
      InOrderOfValidIndex(root, currentPosition);
    }
  }
}
