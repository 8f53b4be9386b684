/** The catalog service: each operation validates its arguments, resolves
    the records it needs and returns the updated store or the error the
    service would throw. */
module Service {
  import opened Wrappers
  import opened Text
  import opened Model
  import opened Rating
  import Repository

  /** `getBooks`: every stored book. */
  function GetBooks(s: Store): map<BookId, Book>
  {
    s.books
  }

  /** `getBookByAuthor`: delegates to the repository's author query, so for
      a term without wildcards it finds the books whose author contains the
      term, ignoring case. */
  function GetBookByAuthor(s: Store, author: string): (r: map<BookId, Book>)
    ensures forall id :: id in r ==> id in s.books && r[id] == s.books[id]
    ensures NoWildcards(author) ==>
      forall id :: id in r <==>
        id in s.books && s.books[id].author.Some? && IsSubstring(Lower(author), Lower(s.books[id].author.value))
  {
    Repository.FindBookByAuthor(s.books, author)
  }

  /** `deleteBook`: an unknown id is rejected; otherwise exactly that book
      goes. Users keep any entry that pointed at it. */
  function DeleteBook(s: Store, id: BookId): (r: Result<Store, Error>)
    ensures r.Err? <==> id !in s.books
    ensures r.Err? ==> r.error == BookNotFound(id)
    ensures r.Ok? ==> r.value.books.Keys == s.books.Keys - {id}
    ensures r.Ok? ==> forall k :: k in r.value.books ==> r.value.books[k] == s.books[k]
    ensures r.Ok? ==> r.value.users == s.users && r.value.nextBookId == s.nextBookId
  {
    if id !in s.books then Err(BookNotFound(id))
    else Ok(s.(books := s.books - {id}))
  }

  /** A price the service accepts: present and strictly positive. */
  predicate ValidPrice(price: Option<real>)
  {
    price.Some? && price.value > 0.0
  }

  /** `updateBookPrice`: the price is checked before the book is looked up,
      so a bad price on an unknown id reports the price. On success only
      that book's price changes. */
  function UpdateBookPrice(s: Store, id: BookId, price: Option<real>): (r: Result<Store, Error>)
    ensures !ValidPrice(price) ==> r == Err(InvalidPrice)
    ensures ValidPrice(price) && id !in s.books ==> r == Err(BookNotFound(id))
    ensures r.Ok? <==> ValidPrice(price) && id in s.books
    ensures r.Ok? ==> r.value.books.Keys == s.books.Keys
    ensures r.Ok? ==> r.value.books[id].price == price
    ensures r.Ok? ==> r.value.books[id].(price := s.books[id].price) == s.books[id]
    ensures r.Ok? ==> forall k :: k in s.books && k != id ==> r.value.books[k] == s.books[k]
    ensures r.Ok? ==> r.value.users == s.users && r.value.nextBookId == s.nextBookId
  {
    if price.None? || price.value <= 0.0 then Err(InvalidPrice)
    else if id !in s.books then Err(BookNotFound(id))
    else Ok(s.(books := s.books[id := s.books[id].(price := price)]))
  }

  /** `addBook`: a title already stored, in any letter case, is rejected and
      nothing is saved; otherwise the book is saved under the next id of the
      sequence. When that id is unused, as in a valid store, every stored
      book stays. */
  function AddBook(s: Store, book: Book): (r: Result<Store, Error>)
    ensures r.Err? <==> exists id :: id in s.books && Lower(s.books[id].title) == Lower(book.title)
    ensures r.Err? ==> r.error == TitleExists(book.title)
    ensures r.Ok? ==> r.value.books.Keys == s.books.Keys + {s.nextBookId}
    ensures r.Ok? ==> r.value.books[s.nextBookId] == book
    ensures r.Ok? ==> forall k :: k in s.books && k != s.nextBookId ==> r.value.books[k] == s.books[k]
    ensures r.Ok? && s.nextBookId !in s.books ==> forall k :: k in s.books ==> r.value.books[k] == s.books[k]
    ensures r.Ok? ==> r.value.nextBookId == s.nextBookId + 1 && r.value.users == s.users
  {
    if Repository.DoesBookExistByTitle(s.books, book.title) then Err(TitleExists(book.title))
    else Ok(s.(books := s.books[s.nextBookId := book], nextBookId := s.nextBookId + 1))
  }

  /** The two-argument `rateBook` of the service as written: it resolves the
      book, then range-checks the rating, and changes nothing. */
  function CheckRating(s: Store, id: BookId, rating: real): (r: Result<Store, Error>)
    ensures id !in s.books ==> r == Err(BookNotFound(id))
    ensures id in s.books ==> (r.Ok? <==> InRange(rating))
    ensures id in s.books && r.Err? ==> r.error == InvalidRating
    ensures r.Ok? ==> r.value == s
  {
    if id !in s.books then Err(BookNotFound(id))
    else if rating < MinRating || rating > MaxRating then Err(InvalidRating)
    else Ok(s)
  }

  /** The four-argument `rateBook` the tests exercise: the user is resolved
      first, then the book, then the rating engine runs; on success only
      that book and that user change. */
  function RateBook(s: Store, bookId: BookId, userId: UserId, rating: real, comment: Option<string>)
    : (r: Result<Store, Error>)
    requires bookId in s.books && FindReview(s.books[bookId].reviews, userId).Some? ==> Count(s.books[bookId]) > 0
    ensures userId !in s.users ==> r == Err(UserNotFound(userId))
    ensures userId in s.users && bookId !in s.books ==> r == Err(BookNotFound(bookId))
    ensures userId in s.users && bookId in s.books ==> (r.Ok? <==> InRange(rating))
    ensures userId in s.users && bookId in s.books && r.Err? ==> r.error == InvalidRating
    ensures r.Ok? ==> r.value.books.Keys == s.books.Keys && r.value.users.Keys == s.users.Keys
    ensures r.Ok? ==> forall k :: k in s.books && k != bookId ==> r.value.books[k] == s.books[k]
    ensures r.Ok? ==> forall k :: k in s.users && k != userId ==> r.value.users[k] == s.users[k]
    ensures r.Ok? ==> r.value.nextBookId == s.nextBookId
    ensures r.Ok? ==> r.value.books[bookId] == RateBookSide(s.books[bookId], userId, rating, comment)
    ensures r.Ok? ==>
      r.value.users[userId] ==
        RateUserSide(s.users[userId], bookId, rating, comment, FindReview(s.books[bookId].reviews, userId).None?)
  {
    if userId !in s.users then Err(UserNotFound(userId))
    else if bookId !in s.books then Err(BookNotFound(bookId))
    else match SubmitRating(s.books[bookId], bookId, s.users[userId], userId, rating, comment)
      case Err(e) => Err(e)
      case Ok((b, usr)) => Ok(s.(books := s.books[bookId := b], users := s.users[userId := usr]))
  }

  /** Under the store invariant the next id of the sequence is unused. */
  lemma NextIdIsFresh(s: Store)
    requires Valid(s)
    ensures s.nextBookId !in s.books
  {
  }

  lemma DeleteBookPreservesValid(s: Store, id: BookId)
    requires Valid(s) && DeleteBook(s, id).Ok?
    ensures Valid(DeleteBook(s, id).value)
  {
    var s' := DeleteBook(s, id).value;
    forall u, j | u in s'.users && 0 <= j < |s'.users[u].reviewedBooks|
      ensures MirrorsReview(s'.books, u, s'.users[u].reviewedBooks[j])
    {
      assert MirrorsReview(s.books, u, s.users[u].reviewedBooks[j]);
    }
  }

  lemma UpdateBookPricePreservesValid(s: Store, id: BookId, price: Option<real>)
    requires Valid(s) && UpdateBookPrice(s, id, price).Ok?
    ensures Valid(UpdateBookPrice(s, id, price).value)
  {
    var s' := UpdateBookPrice(s, id, price).value;
    forall k | k in s'.books
      ensures s'.books[k].reviews == s.books[k].reviews && AggregateOk(s'.books[k])
    {
    }
    forall u, j | u in s'.users && 0 <= j < |s'.users[u].reviewedBooks|
      ensures MirrorsReview(s'.books, u, s'.users[u].reviewedBooks[j])
    {
      assert MirrorsReview(s.books, u, s.users[u].reviewedBooks[j]);
    }
  }

  /** A saved book must itself satisfy the aggregate invariant; the source
      saves whatever book it is given. */
  lemma AddBookPreservesValid(s: Store, book: Book)
    requires Valid(s) && AggregateOk(book) && AddBook(s, book).Ok?
    ensures Valid(AddBook(s, book).value)
  {
    var s' := AddBook(s, book).value;
    forall u, j | u in s'.users && 0 <= j < |s'.users[u].reviewedBooks|
      ensures MirrorsReview(s'.books, u, s'.users[u].reviewedBooks[j])
    {
      var e := s.users[u].reviewedBooks[j];
      assert e.bookId < s.nextBookId;
      assert MirrorsReview(s.books, u, e);
    }
  }

  /** The title check is the only check on a new book: one whose count
      disagrees with its reviews is saved and breaks the invariant. */
  lemma AddBookMayBreakValid()
    ensures var book := Book("T", Some("A"), Some(10.0), None, None, Some(4.5), Some(100), []);
      var s := Store(map[], map[], 0);
      && Valid(s)
      && AddBook(s, book).Ok?
      && !Valid(AddBook(s, book).value)
  {
    var book := Book("T", Some("A"), Some(10.0), None, None, Some(4.5), Some(100), []);
    var s := Store(map[], map[], 0);
    var s' := AddBook(s, book).value;
    assert s'.books[0] == book;
    assert !AggregateOk(book);
  }

  /** Under the mirror invariant a user who has not rated a book holds no
      reviewed-book entry for it. */
  lemma NoEntryBeforeFirstRating(s: Store, bookId: BookId, userId: UserId)
    requires Valid(s) && bookId in s.books && userId in s.users
    requires FindReview(s.books[bookId].reviews, userId).None?
    ensures FindReviewedBook(s.users[userId].reviewedBooks, bookId).None?
  {
    var es := s.users[userId].reviewedBooks;
    forall j | 0 <= j < |es|
      ensures es[j].bookId != bookId
    {
      assert MirrorsReview(s.books, userId, es[j]);
    }
  }

  /** A rating by one user leaves every other user's entries mirrored. */
  lemma OtherUserStaysMirrored(s: Store, bookId: BookId, userId: UserId, b': Book, u: UserId)
    requires Valid(s) && bookId in s.books && u in s.users && u != userId
    requires FindReview(b'.reviews, u) == FindReview(s.books[bookId].reviews, u)
    requires |s.books[bookId].reviews| <= |b'.reviews|
    requires forall i :: 0 <= i < |s.books[bookId].reviews| && s.books[bookId].reviews[i].userId != userId ==>
      b'.reviews[i] == s.books[bookId].reviews[i]
    ensures UserOk(s.books[bookId := b'], s.nextBookId, u, s.users[u])
  {
    var books' := s.books[bookId := b'];
    var es := s.users[u].reviewedBooks;
    forall j | 0 <= j < |es|
      ensures MirrorsReview(books', u, es[j])
    {
      assert MirrorsReview(s.books, u, es[j]);
    }
  }

  /** A rating leaves the rater's own entries mirrored: a new entry repeats
      the new review, a rewritten entry repeats the rewritten review, and
      entries for other books are untouched. */
  lemma RaterStaysMirrored(s: Store, bookId: BookId, userId: UserId, rating: real, comment: Option<string>)
    requires Valid(s) && bookId in s.books && userId in s.users
    ensures
      var b := s.books[bookId];
      var first := FindReview(b.reviews, userId).None?;
      var b' := RateBookSide(b, userId, rating, comment);
      var usr' := RateUserSide(s.users[userId], bookId, rating, comment, first);
      UserOk(s.books[bookId := b'], s.nextBookId, userId, usr')
  {
    var b := s.books[bookId];
    var first := FindReview(b.reviews, userId).None?;
    var b' := RateBookSide(b, userId, rating, comment);
    var usr := s.users[userId];
    var usr' := RateUserSide(usr, bookId, rating, comment, first);
    var added := ReviewedBookEntry(bookId, rating, comment);
    assert MirrorsReview(s.books[bookId := b'], userId, added);
    if first {
      NoEntryBeforeFirstRating(s, bookId, userId);
    }
    RateUserSideKeepsUniqueBooks(usr, bookId, rating, comment, first);
    RaterEntriesClassified(usr, bookId, rating, comment, first);
    RaterEntriesMirrored(s.books, s.nextBookId, bookId, userId, b', usr, usr', added);
  }

  /** After a rating each of the rater's entries is either the entry for the
      rated book, carrying the new values, or an untouched entry for another
      book. */
  lemma RaterEntriesClassified(usr: User, bookId: BookId, rating: real, comment: Option<string>, first: bool)
    requires UniqueBooks(usr.reviewedBooks)
    requires first ==> FindReviewedBook(usr.reviewedBooks, bookId).None?
    ensures var es, es' := usr.reviewedBooks, RateUserSide(usr, bookId, rating, comment, first).reviewedBooks;
      forall j :: 0 <= j < |es'| ==>
        es'[j] == ReviewedBookEntry(bookId, rating, comment) ||
        (j < |es| && es'[j] == es[j] && es[j].bookId != bookId)
  {
    var es, es' := usr.reviewedBooks, RateUserSide(usr, bookId, rating, comment, first).reviewedBooks;
    forall j | 0 <= j < |es'|
      ensures es'[j] == ReviewedBookEntry(bookId, rating, comment) || (j < |es| && es'[j] == es[j] && es[j].bookId != bookId)
    {
      if !first && es[j].bookId == bookId {
        assert FindReviewedBook(es, bookId) == Some(j);
      }
    }
  }

  /** Entries sorted as above stay within the id sequence and keep
      mirroring the book reviews. */
  lemma RaterEntriesMirrored(books: map<BookId, Book>, next: BookId, bookId: BookId, userId: UserId,
                             b': Book, usr: User, usr': User, added: ReviewedBookEntry)
    requires bookId in books && bookId < next && added.bookId == bookId
    requires UserOk(books, next, userId, usr)
    requires UniqueBooks(usr'.reviewedBooks)
    requires MirrorsReview(books[bookId := b'], userId, added)
    requires forall j :: 0 <= j < |usr'.reviewedBooks| ==>
      usr'.reviewedBooks[j] == added ||
      (j < |usr.reviewedBooks| && usr'.reviewedBooks[j] == usr.reviewedBooks[j] && usr.reviewedBooks[j].bookId != bookId)
    ensures UserOk(books[bookId := b'], next, userId, usr')
  {
    var es, es' := usr.reviewedBooks, usr'.reviewedBooks;
    forall j | 0 <= j < |es'|
      ensures es'[j].bookId < next && MirrorsReview(books[bookId := b'], userId, es'[j])
    {
      if es'[j] != added {
        assert MirrorsReview(books, userId, es[j]);
      }
    }
  }

  /** Every accepted rating keeps the store invariant: the rated book's
      aggregate, one entry per book for every user, and the user-side
      mirror of the book-side reviews. */
  lemma RateBookPreservesValid(s: Store, bookId: BookId, userId: UserId, rating: real, comment: Option<string>)
    requires Valid(s) && RateBook(s, bookId, userId, rating, comment).Ok?
    ensures Valid(RateBook(s, bookId, userId, rating, comment).value)
  {
    var s' := RateBook(s, bookId, userId, rating, comment).value;
    var b := s.books[bookId];
    var b' := RateBookSide(b, userId, rating, comment);
    assert s'.books == s.books[bookId := b'];
    RateBookSidePreservesAggregate(b, userId, rating, comment);
    forall u | u in s'.users
      ensures UserOk(s'.books, s'.nextBookId, u, s'.users[u])
    {
      if u == userId {
        RaterStaysMirrored(s, bookId, userId, rating, comment);
      } else {
        OtherUserStaysMirrored(s, bookId, userId, b', u);
      }
    }
  }
}
