/** The two custom queries of the book repository, as functions of the
    stored books. */
module Repository {
  import opened Wrappers
  import opened Text
  import opened Model

  /** The pattern the author query builds: `LOWER(CONCAT('%', q, '%'))`. */
  function AuthorPattern(q: string): string
  {
    Lower("%" + q + "%")
  }

  /** `LOWER(b.author) LIKE LOWER(CONCAT('%', q, '%'))`; a null author never
      matches. */
  predicate AuthorMatches(b: Book, q: string)
  {
    b.author.Some? && Like(Lower(b.author.value), AuthorPattern(q))
  }

  /** For a term without wildcards, the author query is a case-insensitive
      substring test. */
  lemma AuthorMatchesIsSubstring(b: Book, q: string)
    requires NoWildcards(q)
    ensures AuthorMatches(b, q) <==> b.author.Some? && IsSubstring(Lower(q), Lower(b.author.value))
  {
    LowerAppend("%" + q, "%");
    LowerAppend("%", q);
    assert AuthorPattern(q) == "%" + Lower(q) + "%";
    LowerKeepsNoWildcards(q);
    if b.author.Some? {
      LikeContains(Lower(b.author.value), Lower(q));
    }
  }

  /** `findBookByAuthor`: the stored books whose author matches the query.
      The result is a sub-collection of the store, and for a term without
      wildcards it holds exactly the books whose lower-cased author contains
      the lower-cased term. */
  function FindBookByAuthor(books: map<BookId, Book>, q: string): (r: map<BookId, Book>)
    ensures forall id :: id in r ==> id in books && r[id] == books[id]
    ensures forall id :: id in books ==> (id in r <==> AuthorMatches(books[id], q))
    ensures NoWildcards(q) ==>
      forall id :: id in r <==>
        id in books && books[id].author.Some? && IsSubstring(Lower(q), Lower(books[id].author.value))
  {
    var r := map id | id in books && AuthorMatches(books[id], q) :: books[id];
    assert NoWildcards(q) ==> forall id :: id in books ==>
      (AuthorMatches(books[id], q) <==>
        books[id].author.Some? && IsSubstring(Lower(q), Lower(books[id].author.value))) by {
      if NoWildcards(q) {
        forall id | id in books {
          AuthorMatchesIsSubstring(books[id], q);
        }
      }
    }
    r
  }

  /** The query ignores the case of the search term. */
  lemma FindBookByAuthorIgnoresQueryCase(books: map<BookId, Book>, q: string)
    ensures FindBookByAuthor(books, q) == FindBookByAuthor(books, Lower(q))
  {
    LowerAppend("%" + q, "%");
    LowerAppend("%", q);
    LowerAppend("%" + Lower(q), "%");
    LowerAppend("%", Lower(q));
    LowerIdempotent(q);
    assert AuthorPattern(q) == AuthorPattern(Lower(q));
  }

  /** An empty term builds the pattern `%%`, which every non-null author
      matches. */
  lemma EmptyQueryMatchesEveryAuthor(books: map<BookId, Book>)
    ensures forall id :: id in FindBookByAuthor(books, "") <==> id in books && books[id].author.Some?
  {
    assert AuthorPattern("") == "%%";
    forall s: string
      ensures Like(s, "%%")
    {
      LikeAnyRest(s);
    }
  }

  /** A term that no author contains yields nothing. */
  lemma NoMatchingAuthorYieldsNothing(books: map<BookId, Book>, q: string)
    requires NoWildcards(q)
    requires forall id :: id in books && books[id].author.Some? ==>
      !IsSubstring(Lower(q), Lower(books[id].author.value))
    ensures FindBookByAuthor(books, q) == map[]
  {
    var r := FindBookByAuthor(books, q);
    assert r.Keys == {};
  }

  /** `doesBookExistByTitle`: some stored title equals the given one after
      lower-casing both. False on an empty store. */
  function DoesBookExistByTitle(books: map<BookId, Book>, title: string): (r: bool)
    ensures r <==> exists id :: id in books && Lower(books[id].title) == Lower(title)
    ensures books == map[] ==> !r
  {
    exists id | id in books :: EqualsIgnoreCase(books[id].title, title)
  }

  /** A title stored in one case is found when asked for in another. */
  lemma TitleLookupIgnoresCase()
    ensures DoesBookExistByTitle(
      map[1 := Book("The Great Gatsby", Some("F. Scott Fitzgerald"), Some(10.0), None, None, None, None, [])],
      "the great gatsby")
  {
    var books := map[1 := Book("The Great Gatsby", Some("F. Scott Fitzgerald"), Some(10.0), None, None, None, None, [])];
    var lower := "the great gatsby";
    assert forall i :: 0 <= i < |lower| ==> LowerChar(lower[i]) == lower[i];
    assert Lower(lower) == lower;
    assert Lower(books[1].title) == lower;
  }
}
