/** The catalog's records: books with their review list and rating
    aggregate, users with their reviewed-book list, and the store that
    keys both by id. */
module Model {
  import opened Wrappers

  /** Ids are opaque; the book-side sequence and the user-side UUIDs both
      become natural numbers. */
  type BookId = nat
  type UserId = nat

  /** One user's rating of one book, owned by the book (`ReviewData`). */
  datatype ReviewEntry = ReviewEntry(userId: UserId, rating: real, comment: Option<string>)

  /** The user-side back-reference to a rated book (`ReviewedBook`). */
  datatype ReviewedBookEntry = ReviewedBookEntry(bookId: BookId, rating: real, comment: Option<string>)

  /** A stored book. `averageRating` and `ratingCount` may be null; a null
      one reads as zero. */
  datatype Book = Book(
    title: string,
    author: Option<string>,
    price: Option<real>,
    publisher: Option<string>,
    description: Option<string>,
    averageRating: Option<real>,
    ratingCount: Option<nat>,
    reviews: seq<ReviewEntry>)

  datatype User = User(
    email: Option<string>,
    firstName: Option<string>,
    lastName: Option<string>,
    reviewedBooks: seq<ReviewedBookEntry>)

  /** The record store. `nextBookId` is the next value of the book id
      sequence: every id handed out so far is below it. */
  datatype Store = Store(books: map<BookId, Book>, users: map<UserId, User>, nextBookId: BookId)

  /** The failure kinds the service throws. */
  datatype Error =
    | BookNotFound(bookId: BookId)
    | UserNotFound(userId: UserId)
    | InvalidPrice
    | InvalidRating
    | TitleExists(title: string)

  const MinRating: real := 0.0
  const MaxRating: real := 5.0

  predicate InRange(rating: real)
  {
    MinRating <= rating <= MaxRating
  }

  /** A comment counts only when it is present and not empty. */
  predicate HasComment(comment: Option<string>)
  {
    comment.Some? && |comment.value| > 0
  }

  function Average(b: Book): real
  {
    b.averageRating.GetOr(0.0)
  }

  function Count(b: Book): nat
  {
    b.ratingCount.GetOr(0)
  }

  function SumRatings(rs: seq<ReviewEntry>): real
  {
    if |rs| == 0 then 0.0 else SumRatings(rs[..|rs| - 1]) + rs[|rs| - 1].rating
  }

  /** The position of user `u`'s review in `rs`, if there is one. */
  function FindReview(rs: seq<ReviewEntry>, u: UserId): (r: Option<nat>)
    ensures r.Some? ==> r.value < |rs| && rs[r.value].userId == u
    ensures r.Some? ==> forall k :: 0 <= k < r.value ==> rs[k].userId != u
    ensures r.None? ==> forall k :: 0 <= k < |rs| ==> rs[k].userId != u
  {
    if |rs| == 0 then None
    else if rs[0].userId == u then Some(0)
    else match FindReview(rs[1..], u)
      case None => None
      case Some(k) => Some(k + 1)
  }

  /** The position of the entry for book `id` in a user's reviewed-book list,
      if there is one. */
  function FindReviewedBook(es: seq<ReviewedBookEntry>, id: BookId): (r: Option<nat>)
    ensures r.Some? ==> r.value < |es| && es[r.value].bookId == id
    ensures r.Some? ==> forall k :: 0 <= k < r.value ==> es[k].bookId != id
    ensures r.None? ==> forall k :: 0 <= k < |es| ==> es[k].bookId != id
  {
    if |es| == 0 then None
    else if es[0].bookId == id then Some(0)
    else match FindReviewedBook(es[1..], id)
      case None => None
      case Some(k) => Some(k + 1)
  }

  /** At most one review per user. */
  predicate UniqueReviewers(rs: seq<ReviewEntry>)
  {
    forall i, j :: 0 <= i < j < |rs| ==> rs[i].userId != rs[j].userId
  }

  /** At most one reviewed-book entry per book. */
  predicate UniqueBooks(es: seq<ReviewedBookEntry>)
  {
    forall i, j :: 0 <= i < j < |es| ==> es[i].bookId != es[j].bookId
  }

  predicate RatingsInRange(rs: seq<ReviewEntry>)
  {
    forall i :: 0 <= i < |rs| ==> InRange(rs[i].rating)
  }

  /** The book-side invariant: the count is the number of reviews, the
      average times the count is the sum of the ratings, each user reviews
      at most once and every rating lies in [0, 5]. */
  predicate AggregateOk(b: Book)
  {
    && Count(b) == |b.reviews|
    && Average(b) * Count(b) as real == SumRatings(b.reviews)
    && UniqueReviewers(b.reviews)
    && RatingsInRange(b.reviews)
  }

  /** A user's entry for a stored book repeats that user's review of it. */
  predicate MirrorsReview(books: map<BookId, Book>, u: UserId, e: ReviewedBookEntry)
  {
    e.bookId in books ==>
      match FindReview(books[e.bookId].reviews, u)
      case None => false
      case Some(i) =>
        books[e.bookId].reviews[i].rating == e.rating && books[e.bookId].reviews[i].comment == e.comment
  }

  /** The user-side invariant: one entry per book, every entry names an id
      already handed out, and entries for books still stored agree with the
      book's review. Entries for deleted books are allowed to linger. */
  predicate UserOk(books: map<BookId, Book>, nextBookId: BookId, u: UserId, usr: User)
  {
    && UniqueBooks(usr.reviewedBooks)
    && (forall j :: 0 <= j < |usr.reviewedBooks| ==> usr.reviewedBooks[j].bookId < nextBookId)
    && (forall j :: 0 <= j < |usr.reviewedBooks| ==> MirrorsReview(books, u, usr.reviewedBooks[j]))
  }

  /** The store invariant every service operation preserves. */
  predicate Valid(s: Store)
  {
    && (forall id :: id in s.books ==> id < s.nextBookId)
    && (forall id :: id in s.books ==> AggregateOk(s.books[id]))
    && (forall u :: u in s.users ==> UserOk(s.books, s.nextBookId, u, s.users[u]))
  }
}
