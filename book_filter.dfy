/** The filter chain of the catalog page, applied to the materialised list: an exact match on
    the genre, then case-insensitive substring matches on the name and on the author. The
    values of the three input fields and the case fold are parameters. */
module BookFilter {
  import opened StringOrder
  import opened AvlTree

  /** `query` occurs in `text` starting at index `i`. */
  predicate OccursAt(text: string, query: string, i: nat) {
    i + |query| <= |text| && text[i..i + |query|] == query
  }

  /** `text.includes(query)`: `query` occurs in `text` as a contiguous run of characters. */
  predicate Includes(text: string, query: string) {
    exists i: nat :: i <= |text| && OccursAt(text, query, i)
  }

  /** `Array.prototype.filter`: the elements `keep` accepts, in their original order. */
  function Filter(s: seq<Entry>, keep: Entry -> bool): (r: seq<Entry>)
    ensures |r| <= |s|
  {
    if s == [] then []
    else (if keep(s[0]) then [s[0]] else []) + Filter(s[1..], keep)
  }

  /** Filtering keeps every accepted element exactly as often as it occurs in the input and
      drops every other one. */
  lemma {:induction false} FilterCounts(s: seq<Entry>, keep: Entry -> bool)
    ensures forall e :: multiset(Filter(s, keep))[e] == if keep(e) then multiset(s)[e] else 0
    ensures forall e :: e in Filter(s, keep) <==> e in s && keep(e)
  {
    if s != [] {
      FilterCounts(s[1..], keep);
      assert s == [s[0]] + s[1..];
      var r := Filter(s, keep);
      assert forall e :: e in r <==> multiset(r)[e] > 0;
      assert forall e :: e in s <==> multiset(s)[e] > 0;
    }
  }

  /** Filtering works piece by piece: the result for a concatenation is the results for the
      two parts, one after the other, so the kept elements stay in their input order. */
  lemma {:induction false} FilterAppend(a: seq<Entry>, b: seq<Entry>, keep: Entry -> bool)
    ensures Filter(a + b, keep) == Filter(a, keep) + Filter(b, keep)
  {
    if a == [] {
      assert a + b == b;
    } else {
      var head := if keep(a[0]) then [a[0]] else [];
      assert (a + b)[0] == a[0];
      assert (a + b)[1..] == a[1..] + b;
      assert Filter(a + b, keep) == head + Filter(a[1..] + b, keep);
      FilterAppend(a[1..], b, keep);
      assert Filter(a, keep) == head + Filter(a[1..], keep);
    }
  }

  /** Two filters one after the other keep what one filter accepting both would keep. */
  lemma {:induction false} FilterTwice(s: seq<Entry>, p: Entry -> bool, q: Entry -> bool, both: Entry -> bool)
    requires forall e :: both(e) == (p(e) && q(e))
    ensures Filter(Filter(s, p), q) == Filter(s, both)
  {
    if s != [] {
      FilterTwice(s[1..], p, q, both);
      var head := if p(s[0]) then [s[0]] else [];
      FilterAppend(head, Filter(s[1..], p), q);
      if p(s[0]) {
        assert head[1..] == [];
      }
    }
  }

  /** Filtering with a callback that accepts everything returns the list unchanged. */
  lemma {:induction false} FilterKeepAll(s: seq<Entry>, keep: Entry -> bool)
    requires forall e :: keep(e)
    ensures Filter(s, keep) == s
  {
    if s != [] {
      FilterKeepAll(s[1..], keep);
    }
  }

  /** Filtering with two callbacks that agree on every element gives the same list. */
  lemma {:induction false} FilterSame(s: seq<Entry>, p: Entry -> bool, q: Entry -> bool)
    requires forall e :: p(e) == q(e)
    ensures Filter(s, p) == Filter(s, q)
  {
    if s != [] {
      FilterSame(s[1..], p, q);
    }
  }

  /** Whether a book passes all three filters; an empty genre or an empty (folded) query
      switches its filter off. */
  predicate Matches(e: Entry, genre: string, nameQuery: string, authorQuery: string, fold: string -> string) {
    && (genre != [] ==> e.book.genre == genre)
    && (nameQuery != [] ==> Includes(fold(e.book.name), nameQuery))
    && (authorQuery != [] ==> Includes(fold(e.book.author), authorQuery))
  }

  /** The three callbacks `filterBooks` passes to `filter`. */
  function GenreIs(genre: string): Entry -> bool {
    (e: Entry) => e.book.genre == genre
  }

  function NameIncludes(query: string, fold: string -> string): Entry -> bool {
    (e: Entry) => Includes(fold(e.book.name), query)
  }

  function AuthorIncludes(query: string, fold: string -> string): Entry -> bool {
    (e: Entry) => Includes(fold(e.book.author), query)
  }

  /** `filterBooks()` without its DOM reads and its final `displayBooks` call: `genre`,
      `search` and `author` are the values of the three input fields and `fold` is
      `toLowerCase`. Exactly the books that match every active filter are kept. */
  function FilterBooks(books: seq<Entry>, genre: string, search: string, author: string, fold: string -> string): (r: seq<Entry>)
    ensures |r| <= |books|
    ensures forall e :: e in r <==> e in books && Matches(e, genre, fold(search), fold(author), fold)
  {
    var searchQuery := fold(search);
    var authorQuery := fold(author);
    var byGenre := if genre != [] then Filter(books, GenreIs(genre)) else books;
    FilterCounts(books, GenreIs(genre));
    var byName := if searchQuery != [] then Filter(byGenre, NameIncludes(searchQuery, fold)) else byGenre;
    FilterCounts(byGenre, NameIncludes(searchQuery, fold));
    FilterCounts(byName, AuthorIncludes(authorQuery, fold));
    if authorQuery != [] then Filter(byName, AuthorIncludes(authorQuery, fold)) else byName
  }

  /** The single callback that accepts exactly the books passing all three filters. */
  function MatchesAll(genre: string, nameQuery: string, authorQuery: string, fold: string -> string): Entry -> bool {
    (e: Entry) => Matches(e, genre, nameQuery, authorQuery, fold)
  }

  /** The filter chain is one filter by Matches: the result is fully determined, keeping the
      matching books in their original order and with their multiplicity. */
  lemma FilterBooksIsOneFilter(books: seq<Entry>, genre: string, search: string, author: string, fold: string -> string)
    ensures FilterBooks(books, genre, search, author, fold) ==
            Filter(books, MatchesAll(genre, fold(search), fold(author), fold))
  {
    var searchQuery := fold(search);
    var authorQuery := fold(author);
    var g := (e: Entry) => genre != [] ==> e.book.genre == genre;
    var n := (e: Entry) => searchQuery != [] ==> Includes(fold(e.book.name), searchQuery);
    var a := (e: Entry) => authorQuery != [] ==> Includes(fold(e.book.author), authorQuery);
    var byGenre := if genre != [] then Filter(books, GenreIs(genre)) else books;
    if genre != [] { FilterSame(books, GenreIs(genre), g); } else { FilterKeepAll(books, g); }
    var byName := if searchQuery != [] then Filter(byGenre, NameIncludes(searchQuery, fold)) else byGenre;
    if searchQuery != [] { FilterSame(byGenre, NameIncludes(searchQuery, fold), n); } else { FilterKeepAll(byGenre, n); }
    var result := if authorQuery != [] then Filter(byName, AuthorIncludes(authorQuery, fold)) else byName;
    if authorQuery != [] { FilterSame(byName, AuthorIncludes(authorQuery, fold), a); } else { FilterKeepAll(byName, a); }
    var gn := (e: Entry) => g(e) && n(e);
    FilterTwice(books, g, n, gn);
    FilterTwice(books, gn, a, MatchesAll(genre, searchQuery, authorQuery, fold));
  }

  /** Filtering keeps the list in name order. */
  lemma {:induction false} FilterAscending(s: seq<Entry>, keep: Entry -> bool)
    requires Ascending(s)
    ensures Ascending(Filter(s, keep))
  {
    if s != [] {
      FilterAscending(s[1..], keep);
      FilterCounts(s[1..], keep);
      var rest := Filter(s[1..], keep);
      forall e <- rest
        ensures Less(s[0].book.name, e.book.name)
      {
        var j :| 0 <= j < |s[1..]| && s[1..][j] == e;
        assert s[j + 1] == e;
      }
    }
  }

  /** The filtered catalog is still in name order. */
  lemma FilterBooksAscending(books: seq<Entry>, genre: string, search: string, author: string, fold: string -> string)
    requires Ascending(books)
    ensures Ascending(FilterBooks(books, genre, search, author, fold))
  {
    var searchQuery := fold(search);
    var authorQuery := fold(author);
    var byGenre := if genre != [] then Filter(books, GenreIs(genre)) else books;
    FilterAscending(books, GenreIs(genre));
    var byName := if searchQuery != [] then Filter(byGenre, NameIncludes(searchQuery, fold)) else byGenre;
    FilterAscending(byGenre, NameIncludes(searchQuery, fold));
    FilterAscending(byName, AuthorIncludes(authorQuery, fold));
  }
}
