/**
 The book search: a snapshot of the catalog filtered by a keyword that must
 occur, ignoring case, in the title or in the author.
 */
module BookCache {
  import opened Records
  import opened Text

  /** `book` matches the already lower-cased keyword `key`. */
  predicate Matches(book: Book, key: string)
  {
    IsSubstring(key, Lower(book.title)) || IsSubstring(key, Lower(book.author))
  }

  /** `a` can be obtained from `b` by deleting elements. */
  predicate IsSubsequence<T(==)>(a: seq<T>, b: seq<T>)
    decreases |b|
  {
    |a| == 0 ||
    (|b| > 0 && ((a[0] == b[0] && IsSubsequence(a[1..], b[1..])) || IsSubsequence(a, b[1..])))
  }

  /**
   The books of the snapshot matching `keyword`: an order-preserving
   selection of matching books (MatchingIsExact adds that every matching
   book is kept, with its multiplicity).
   */
  function Matching(books: seq<Book>, keyword: string): (r: seq<Book>)
    ensures IsSubsequence(r, books)
    ensures forall i :: 0 <= i < |r| ==> Matches(r[i], Lower(keyword))
    decreases |books|
  {
    if |books| == 0 then []
    else
      var rest := Matching(books[1..], keyword);
      if Matches(books[0], Lower(keyword)) then
        assert ([books[0]] + rest)[1..] == rest;
        [books[0]] + rest
      else
        rest
  }

  /** The search keeps exactly the matching books, each as often as in the snapshot. */
  lemma {:induction false} MatchingIsExact(books: seq<Book>, keyword: string)
    ensures forall b :: multiset(Matching(books, keyword))[b]
                        == if Matches(b, Lower(keyword)) then multiset(books)[b] else 0
    decreases |books|
  {
    if |books| > 0 {
      MatchingIsExact(books[1..], keyword);
      assert books == [books[0]] + books[1..];
      assert multiset(books) == multiset{books[0]} + multiset(books[1..]);
    }
  }

  lemma {:induction false} MatchingAppend(books: seq<Book>, book: Book, keyword: string)
    ensures Matching(books + [book], keyword)
            == Matching(books, keyword) + (if Matches(book, Lower(keyword)) then [book] else [])
    decreases |books|
  {
    if |books| > 0 {
      assert (books + [book])[1..] == books[1..] + [book];
      MatchingAppend(books[1..], book, keyword);
    } else {
      assert [book][1..] == [];
    }
  }

  /** One test of the search loop, short-circuiting like Python's `or`. */
  method MatchesKey(book: Book, key: string) returns (hit: bool)
    ensures hit <==> Matches(book, key)
  {
    hit := Contains(key, Lower(book.title));
    if !hit {
      hit := Contains(key, Lower(book.author));
    }
  }

  /** The search loop: lower-cases the keyword once, then tests each book. */
  method Search(books: seq<Book>, keyword: string) returns (r: seq<Book>)
    ensures r == Matching(books, keyword)
  {
    var key := Lower(keyword);
    r := [];
    var i := 0;
    while i < |books|
      invariant 0 <= i <= |books|
      invariant r == Matching(books[..i], keyword)
    {
      var hit := MatchesKey(books[i], key);
      MatchingAppend(books[..i], books[i], keyword);
      assert books[..i + 1] == books[..i] + [books[i]];
      if hit {
        r := r + [books[i]];
      }
      i := i + 1;
    }
    assert books[..|books|] == books;
  }

  /** The empty keyword matches every book, so the whole snapshot is returned. */
  lemma {:induction false} SearchEmptyKeyword(books: seq<Book>)
    ensures Matching(books, "") == books
    decreases |books|
  {
    if |books| > 0 {
      assert Lower("") == "";
      EmptyIsSubstring(Lower(books[0].title));
      SearchEmptyKeyword(books[1..]);
      assert books == [books[0]] + books[1..];
    }
  }

  /** Searching a search result again with the same keyword changes nothing. */
  lemma {:induction false} SearchIdempotent(books: seq<Book>, keyword: string)
    ensures Matching(Matching(books, keyword), keyword) == Matching(books, keyword)
    decreases |books|
  {
    if |books| > 0 {
      SearchIdempotent(books[1..], keyword);
      var rest := Matching(books[1..], keyword);
      if Matches(books[0], Lower(keyword)) {
        assert ([books[0]] + rest)[0] == books[0];
        assert ([books[0]] + rest)[1..] == rest;
      }
    }
  }

  /** The keyword's own case does not matter. */
  lemma {:induction false} SearchIgnoresKeywordCase(books: seq<Book>, keyword: string)
    ensures Matching(books, Lower(keyword)) == Matching(books, keyword)
    decreases |books|
  {
    LowerIdempotent(keyword);
    if |books| > 0 {
      SearchIgnoresKeywordCase(books[1..], keyword);
    }
  }
}
