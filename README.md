# Book catalog AVL index

The catalog page of this book-browsing site keeps its books in an AVL tree (`AVLTree` in
`public/script.js`). Each node holds one book, its stored `height` and `balance` fields, and
a `position`: the insertion-sequence number the tree's `currentPosition` counter stamped on
the node when it was created. Books are keyed by `book.name` and compared with JavaScript's
`<` and `>` on strings. A name that is already present is silently ignored. After every
insertion the tree rebalances with the four classical single and double rotations.
`getBooks` flattens the tree into the list `{...book, position, balance}` in name order.
The page's filters narrow that list by genre and by case-insensitive substrings of name and
author.

This project models that index and proves, for every input:

- the index stays a binary search tree;
- every stored height and balance field agrees with the tree's shape;
- every balance is -1, 0 or 1;
- re-inserting a name changes nothing, neither the tree nor the counter;
- a new book lands at its place in name order, stamped with the next counter value, and
  every other book keeps its place and its position;
- positions are distinct, never exceed the counter, and grow in creation order;
- the list `getBooks` returns is in strictly ascending name order, one entry per node;
- filtering keeps exactly the matching books, still in order;
- the height is logarithmic in the number of books.

Modules:

- `StringOrder` (`string_order.dfy`): JavaScript's `<` on strings, as lexicographic order
  on `seq<char>`, and the facts the descent relies on: irreflexive, transitive, asymmetric,
  total.
- `AvlTree` (`avl_tree.dfy`): `Node`, the stored fields, `height`,
  `updateHeightAndBalance`, the two rotations, the in-order contents and the validity
  predicates.
- `AvlInsert` (`avl_insert.dfy`): `insert`, with its four-case rebalance and the
  `currentPosition` counter threaded through. It also holds a reference definition,
  `InsertSorted`, of what an insertion does to the name-ordered contents.
- `BookIndex` (`book_index.dfy`): the `AVLTree` object as a class with the fields `root`
  and `currentPosition`, and its methods `insertBook`, `inOrder` and `getBooks`.
- `BookFilter` (`book_filter.dfy`): the filter chain of `filterBooks`.
- `AvlHeight` (`avl_height.dfy`): the logarithmic height bound.
- `Scenarios` (`scenarios.dfy`): the exact trees that short insertion runs produce.

A node whose fields the code rewrites in place is modelled as a datatype value that is
rebuilt. `insert(root, book)` becomes the function `Insert(t, b, counter)`, which returns
the new subtree and the new counter. `insertBook` is the method that stores both results
in the object's fields.

## Model

| member | source | states |
|---|---|---|
| StringOrder.LessIrreflexive | public/script.js:74-80 | no name is `<` itself, so an equal name falls through both comparisons to the "already present" branch |
| StringOrder.LessTransitive | public/script.js:74-77 | `<` on strings is transitive, which is what keeps a left subtree's names below every ancestor it is under |
| StringOrder.LessAsymmetric | public/script.js:74-77 | `a < b` and `b < a` never both hold, so the descent's two branches exclude each other |
| StringOrder.LessTotal | public/script.js:74-80 | two names are equal or one is `<` the other, so reaching the final `else` means the name is already stored |
| AvlTree.ContentsInKeys | public/script.js:111-117 | every book the in-order traversal visits has its name among the subtree's keys |
| AvlTree.InOrderMatchesContents | public/script.js:111-123 | the traversal hands over one entry per stored book, in the same order, with that node's position; in a balanced tree every reported balance is -1, 0 or 1 |
| AvlTree.StoredFieldsMatchShape | public/script.js:26-39 | when every node's fields were computed from its children, the stored height equals the real height and the stored balance equals the difference of the children's real heights |
| AvlTree.NewNode | public/script.js:9-18 | `new Node(book)` with its stamp is a valid one-node tree holding exactly that book at that position |
| AvlTree.UpdateHeightAndBalance | public/script.js:34-39 | only height and balance change; children, book, position, contents, keys and ordering stay the same; a node over consistent children becomes consistent; an absent node stays absent |
| AvlTree.RightRotate | public/script.js:41-52 | `x` becomes the root with `y` as its right child and T2 moved under `y`; the three subtrees below are reused untouched; the in-order contents and key set are preserved; both rotated nodes keep book and position; the fields are consistent again |
| AvlTree.LeftRotate | public/script.js:54-65 | the mirror image of RightRotate, with the same guarantees |
| AvlTree.RightRotateOrdered | public/script.js:41-52 | a right rotation keeps a binary search tree ordered |
| AvlTree.LeftRotateOrdered | public/script.js:54-65 | a left rotation keeps a binary search tree ordered |
| AvlTree.ContentsAscending | public/script.js:111-117 | in-order traversal of an ordered tree lists the names in strictly ascending order |
| AvlInsert.Rebalance | public/script.js:84-104 | the four cases in the code's order; whichever one is taken, the node's contents and keys are preserved, and a node whose balance is within -1..1 is returned as it is |
| AvlInsert.RightRotationRestores | public/script.js:86-88 | left-left case: a single right rotation gives a valid tree two levels above the right child |
| AvlInsert.LeftRotationRestores | public/script.js:90-92 | right-right case: a single left rotation gives a valid tree two levels above the left child |
| AvlInsert.LeftRightRotationRestores | public/script.js:94-97 | left-right case: rotating the left child left and then the node right gives a valid tree two levels above the right child |
| AvlInsert.RightLeftRotationRestores | public/script.js:99-102 | right-left case, the mirror image of the left-right case |
| AvlInsert.Insert | public/script.js:67-105 | on a valid tree: the result is valid (ordered, consistent fields, every balance -1..1); its keys are the old keys plus the name; a name already present returns the same subtree and counter; a new name advances the counter by exactly one; the height grows by at most one; when it grows, the root keeps its book and leans toward the side the name went to |
| AvlInsert.InsertedLeft | public/script.js:74-104 | after a descent to the left, recomputing the fields and rebalancing keeps every promise of Insert |
| AvlInsert.LeftUnrotated | public/script.js:82-104 | after a left descent with no rotation needed, the node keeps Insert's promises |
| AvlInsert.LeftRotated | public/script.js:84-97 | after a left descent with balance 2, the chosen rotation keeps Insert's promises and leaves the height unchanged |
| AvlInsert.InsertedRight | public/script.js:76-104 | after a descent to the right, recomputing the fields and rebalancing keeps every promise of Insert |
| AvlInsert.RightUnrotated | public/script.js:82-104 | after a right descent with no rotation needed, the node keeps Insert's promises |
| AvlInsert.RightRotated | public/script.js:90-102 | after a right descent with balance -2, the chosen rotation keeps Insert's promises and leaves the height unchanged |
| AvlInsert.InsertSorted | public/script.js:74-80 | reference definition of where a new book belongs in name order: one element longer, with the same elements plus the new one |
| AvlInsert.InsertSortedSplit | public/script.js:74-80 | the reference insertion keeps the old list intact around the single new element |
| AvlInsert.InsertSortedBefore | public/script.js:74-75 | a name smaller than a node's goes into the part of the list before that node |
| AvlInsert.InsertSortedAfter | public/script.js:76-77 | a name greater than a node's, and than every name before it, goes into the part after the node |
| AvlInsert.InsertPlacesNewBook | public/script.js:67-105 | inserting a new name changes the in-order contents exactly as the reference insertion does: the book stamped `counter + 1` at its place in name order; every other book keeps its order and position through all rotations |
| BookIndex.NextPositionIsFresh | public/script.js:68-71 | adding a book stamped with the next counter value keeps all positions distinct and within the advanced counter |
| BookIndex.NextPositionIsLargest | public/script.js:68-71 | every earlier entry survives the insertion with a position smaller than the new stamp |
| BookIndex.InsertKeepsPositions | public/script.js:67-105 | one insert keeps the positions distinct and within the counter; a new book carries the largest stamp; every earlier book is still stored with the position it was created with |
| BookIndex.InOrderOfValidIndex | public/script.js:111-123 | the flattened list of a valid index has strictly ascending names, no position twice, every position a stamp already handed out, and every balance -1, 0 or 1 |
| BookIndex.AVLTree.constructor | public/script.js:21-24 | an empty index whose counter is 0 |
| BookIndex.AVLTree.InsertBook | public/script.js:107-109 | the new root and counter are exactly the tree and counter Insert produces from the old ones, so its shape and every balance are determined; the index stays valid and its keys gain the name; a duplicate leaves root and counter untouched; a new book advances the counter by one, is placed in name order with the new stamp, and every earlier book keeps its position, which is below the new counter |
| BookIndex.AVLTree.CollectInOrder | public/script.js:111-117 | the traversal appends exactly the subtree's in-order entries to what was collected before |
| BookIndex.AVLTree.GetBooks | public/script.js:119-123 | returns the in-order list without changing the object: names strictly ascending, positions distinct and between 1 and the counter, balances -1..1 |
| BookFilter.Filter | public/script.js:210 | `Array.prototype.filter`: never longer than its input |
| BookFilter.FilterCounts | public/script.js:210 | each accepted element is kept exactly as often as it occurs in the input, and every other element is dropped |
| BookFilter.FilterAppend | public/script.js:210 | filtering a concatenation gives the two filtered parts one after the other, so the kept elements stay in input order |
| BookFilter.FilterSame | public/script.js:210 | two callbacks that agree on every element filter any list identically |
| BookFilter.FilterKeepAll | public/script.js:209-219 | a callback accepting everything returns the list unchanged, as a skipped filter does |
| BookFilter.FilterTwice | public/script.js:209-219 | two filters in a row give the same result as one filter accepting what both accept |
| BookFilter.FilterBooks | public/script.js:203-222 | keeps exactly the books that match every active filter (exact genre, then folded name substring, then folded author substring); an empty field switches its filter off |
| BookFilter.FilterBooksIsOneFilter | public/script.js:203-222 | the chain equals a single filter by the combined match, so the result is fully determined: the matching books in their original order, each as often as in the input |
| BookFilter.FilterAscending | public/script.js:209-219 | filtering an ascending list keeps it ascending |
| BookFilter.FilterBooksAscending | public/script.js:209-219 | the filtered catalog is still in strictly ascending name order |
| AvlHeight.MinNodesStep | public/script.js:84-104 | a node whose children's heights differ by at most one needs at least the children's minimum counts plus one |
| AvlHeight.BalancedTreeIsFull | public/script.js:84-104 | a tree with consistent fields and every balance -1..1 has at least the minimum number of nodes for its height |
| AvlHeight.MinNodesGrowth | public/script.js:84-104 | two to the height is at most the square of (the minimum node count for that height plus one) |
| AvlHeight.HeightIsLogarithmic | public/script.js:84-104 | a valid index of n books has height h with 2^h ≤ (n + 1)^2, that is h ≤ 2·log2(n + 1) |
| Scenarios.SecondGoesRight | public/script.js:67-105 | a greater name inserted under a lone node becomes its right child with the next stamp; no rotation |
| Scenarios.SecondGoesLeft | public/script.js:67-105 | a smaller name inserted under a lone node becomes its left child with the next stamp; no rotation |
| Scenarios.AscendingRunRotatesLeft | public/script.js:90-92 | three names inserted in ascending order trigger one left rotation; the middle name becomes the root and every balance is 0 |
| Scenarios.DescendingRunRotatesRight | public/script.js:86-88 | three names inserted in descending order trigger one right rotation |
| Scenarios.LeftRightRunRotatesTwice | public/script.js:94-97 | high, low, middle: the left-right double rotation puts the last book at the root |
| Scenarios.RightLeftRunRotatesTwice | public/script.js:99-102 | low, high, middle: the right-left double rotation puts the last book at the root |
| Scenarios.PositionsFollowInsertionOrder | public/script.js:68-71 | middle, low, high: the list comes out in name order while the positions read 2, 1, 3 |

## Left out

- `fetchBooksJSON` (public/script.js:2-7): network fetch and JSON decoding; the loaded books are simply the arguments of `InsertBook`.
- `visualize` and `drawEdge` (public/script.js:125-173): DOM elements and floating-point geometry.
- `displayBooks` (public/script.js:178-197), page navigation (public/script.js:293-322) and the pan/zoom handlers (public/script.js:238-290): DOM rendering, mouse events and float scaling.
- The DOM reads in `filterBooks` (public/script.js:204-206) and its call to `displayBooks`: the three field values are parameters. `toLowerCase` is a parameter `fold` too, because Unicode case mapping is not modelled.
- server.js (static file serving) and test/test.js (JSDOM page tests) are not part of this model.
- Pointer identity and in-place mutation: nodes are values that get rebuilt, so aliasing between nodes is not modelled. The code never shares a node between two parents, so this loses nothing the code observes.
- AvlInsert.Insert: requires a valid tree. On an arbitrary tree with stale fields the code could reach `leftRotate` with a null child and throw. The model does not describe that; `insertBook` only ever calls `insert` on the root of a valid index.
- StringOrder.Less: JavaScript compares strings by UTF-16 code units; Dafny's `char` is a Unicode scalar value. The two orders differ only between characters above U+FFFF and characters from U+E000 to U+FFFF.
- AvlHeight.HeightIsLogarithmic: proves 2^h ≤ (n + 1)^2, that is h ≤ 2·log2(n + 1), a weaker bound than the sharper AVL bound of about 1.44·log2(n + 2).
- The extra `position` and `balance` keys that the spread `{...book, position, balance}` adds to a record are modelled as the separate `Entry` fields; a book record that already had such keys would have them overwritten, which is not modelled.
