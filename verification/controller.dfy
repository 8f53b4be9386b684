/** The HTTP layer for books: it picks the query for a listing and hands
    every other request to the service unchanged. Failures propagate as the
    service's errors. */
module Controller {
  import opened Wrappers
  import opened Text
  import opened Model
  import Rating
  import Service

  /** The JSON body of a review request; the rating is a primitive and so
      never null, the comment may be. */
  datatype ReviewRequest = ReviewRequest(userId: UserId, rating: real, comment: Option<string>)

  /** `GET /api/v1/books?author=`: a missing or empty author lists every
      book; any other author lists only the books the author query finds. */
  function GetBooks(s: Store, author: Option<string>): (r: map<BookId, Book>)
    ensures author.None? || author.value == "" ==> r == s.books
    ensures author.Some? && author.value != "" ==> r == Service.GetBookByAuthor(s, author.value)
    ensures forall id :: id in r ==> id in s.books && r[id] == s.books[id]
    ensures author.Some? && author.value != "" && NoWildcards(author.value) ==>
      forall id :: id in r <==>
        id in s.books && s.books[id].author.Some? && IsSubstring(Lower(author.value), Lower(s.books[id].author.value))
  {
    if author.Some? && author.value != "" then Service.GetBookByAuthor(s, author.value)
    else Service.GetBooks(s)
  }

  /** `DELETE /api/v1/books/{id}`. */
  function DeleteBook(s: Store, id: BookId): (r: Result<Store, Error>)
    ensures r == Service.DeleteBook(s, id)
    ensures r.Err? <==> id !in s.books
  {
    Service.DeleteBook(s, id)
  }

  /** `PUT /api/v1/books/{id}`: the raw body is the price, forwarded as is,
      null included; the service rejects a null price. */
  function UpdateBookPrice(s: Store, id: BookId, price: Option<real>): (r: Result<Store, Error>)
    ensures r == Service.UpdateBookPrice(s, id, price)
    ensures price.None? ==> r == Err(InvalidPrice)
  {
    Service.UpdateBookPrice(s, id, price)
  }

  /** `POST /api/v1/books`: the body is saved as given unless its title is
      already stored in some letter case. */
  function AddBook(s: Store, book: Book): (r: Result<Store, Error>)
    ensures r == Service.AddBook(s, book)
    ensures r.Err? <==> exists id :: id in s.books && Lower(s.books[id].title) == Lower(book.title)
    ensures r.Ok? ==> r.value.books[s.nextBookId] == book
  {
    Service.AddBook(s, book)
  }

  /** `POST /api/v1/books/{id}/review`: the path id and the request's user,
      rating and comment reach the service unchanged, so an accepted request
      leaves a review holding exactly the requested rating and comment, a
      null comment included. */
  function RateBook(s: Store, bookId: BookId, req: ReviewRequest): (r: Result<Store, Error>)
    requires bookId in s.books && FindReview(s.books[bookId].reviews, req.userId).Some? ==> Count(s.books[bookId]) > 0
    ensures r == Service.RateBook(s, bookId, req.userId, req.rating, req.comment)
    ensures r.Ok? ==>
      var rs := r.value.books[bookId].reviews;
      FindReview(rs, req.userId).Some? &&
      rs[FindReview(rs, req.userId).value] == ReviewEntry(req.userId, req.rating, req.comment)
  {
    Service.RateBook(s, bookId, req.userId, req.rating, req.comment)
  }
}
