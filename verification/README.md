# Bookstore catalog — a Dafny model

This project models the core of a small Spring bookstore. It has three parts.

- **Catalog service.** Four mutations, each a single validate → look up → mutate step: `deleteBook`, `updateBookPrice`, `addBook` and `rateBook`.
- **Repository queries.** The author search (`LOWER(author) LIKE LOWER('%' || q || '%')`) and the case-insensitive title-existence check.
- **Rating engine.** A user rates a book. The book keeps a review list and an incrementally maintained average and count. The user keeps a list of reviewed books, which gets a new entry only when the rating carries a comment.

The store is immutable: `Model.Store` holds a map from book id to `Book`, a map from user id to `User`, and the next value of the book id sequence. Every operation is a pure function from a store to `Result<Store, Error>`. Its `Error` is the kind of exception the service throws: `BookNotFound`, `UserNotFound`, `InvalidPrice`, `InvalidRating` or `TitleExists`. Prices and ratings are exact `real`s. A null field becomes an `Option`. A null `averageRating` or `ratingCount` reads as 0, as the tests set them.

The main code has only a two-argument `rateBook(id, rating)`. It looks up the book, range-checks the rating and changes nothing. That method is `Service.CheckRating`. The four-argument `rateBook(bookId, userId, rating, comment)` is what the controller calls and what `BookStoreServiceTest.java` exercises, but its body is not in the main code. `Rating.SubmitRating` and `Service.RateBook` model the behaviour those tests assert:

- The user is resolved first, then the book, then the rating is range-checked.
- A first rating appends a review and bumps the count.
- A repeat rating rewrites the user's review in place.
- The user-side entry is added only for a non-empty comment and rewritten on a repeat rating.

Three facts about the code and its tests shape the model:

- The tests set `averageRating` and `ratingCount` to null on fresh books, so both are `Option`s here and a null reads as 0.
- The unknown-user test stubs no book and still expects user-not-found, so the user is looked up before the book.
- `addBook` saves the book it is given. A book without an id gets the next value of the id sequence declared in `Book.java`, and the model always takes that path.

Modules, leaves first: `Wrappers` (Option/Result), `Text` (ASCII `LOWER`, SQL `LIKE`, substring), `Model` (records and invariants), `Repository`, `Rating`, `Service`, `Controller`.

The main invariant is `Model.Valid`. It says:

- Each book's count equals its number of reviews.
- Each book's average times its count equals the sum of its ratings.
- Each book has at most one review per user, and every rating lies in [0, 5].
- Each user has at most one reviewed-book entry per book.
- Every such entry names an id already handed out.
- An entry for a book still stored repeats the user's review of that book.

Deleting a book, changing a price and every accepted rating preserve `Valid`. Adding a book preserves it when the new book itself satisfies the aggregate part: its count matches its reviews, its average matches their sum, it has one review per user and every rating lies in [0, 5]. The source saves any book, so a book sent with a count but no reviews leaves a store that is not `Valid` (`Service.AddBookMayBreakValid`).

## Model

| member | source | states |
|---|---|---|
| Text.LikeContains | src/main/java/com/example/demo/bookstore/BookStoreRepository.java:14 | for a term without `%` or `_`, the pattern `%q%` matches a string exactly when `q` occurs in it as a contiguous substring |
| Text.EqualsIgnoreCase | src/main/java/com/example/demo/bookstore/BookStoreRepository.java:17 | the character-by-character test is true exactly when the two strings are equal after `LOWER` |
| Repository.AuthorMatchesIsSubstring | src/main/java/com/example/demo/bookstore/BookStoreRepository.java:14-15 | a book matches a wildcard-free author query iff its author is non-null and its lower-cased author contains the lower-cased query |
| Repository.FindBookByAuthor | src/main/java/com/example/demo/bookstore/BookStoreRepository.java:14-15 | the result is a sub-collection of the stored books (same ids, same records); it holds exactly the books whose author matches the LIKE pattern, which for a wildcard-free query means the books whose lower-cased author contains the lower-cased query |
| Repository.FindBookByAuthorIgnoresQueryCase | src/main/java/com/example/demo/bookstore/BookStoreRepository.java:14 | the author query gives the same books for `q` and for `lowercase(q)` |
| Repository.EmptyQueryMatchesEveryAuthor | src/main/java/com/example/demo/bookstore/BookStoreRepository.java:14 | an empty query (pattern `%%`) returns every book whose author is non-null, and no other |
| Repository.NoMatchingAuthorYieldsNothing | src/main/java/com/example/demo/bookstore/BookStoreRepository.java:14-15 | a wildcard-free query that no stored author contains returns no books |
| Repository.DoesBookExistByTitle | src/main/java/com/example/demo/bookstore/BookStoreRepository.java:17-18 | true iff some stored title equals the given title after lower-casing both; always false on an empty store |
| Repository.TitleLookupIgnoresCase | src/main/java/com/example/demo/bookstore/BookStoreRepository.java:17 | a store holding "The Great Gatsby" reports that "the great gatsby" exists |
| Service.DeleteBook | src/main/java/com/example/demo/bookstore/service/BookStoreService.java:31-37 | fails with book-not-found iff the id is not stored; otherwise removes exactly that id, and every other book, every user and the id sequence are unchanged |
| Service.UpdateBookPrice | src/main/java/com/example/demo/bookstore/service/BookStoreService.java:41-46 | a null or non-positive price fails with invalid-price whether or not the book exists; a valid price on an unknown id fails with book-not-found; on success only that book's price changes, to the given value |
| Service.AddBook | src/main/java/com/example/demo/bookstore/service/BookStoreService.java:50-56 | fails with title-exists iff some stored title equals the new one ignoring case; otherwise the book is stored under the next sequence id and that id is added to the stored ids; every other stored book stays as it was, and when the next id is unused, which `Valid` guarantees, every stored book stays |
| Service.CheckRating | src/main/java/com/example/demo/bookstore/service/BookStoreService.java:58-64 | an unknown book fails with book-not-found before the rating is looked at; for a stored book the call succeeds iff the rating lies in [0, 5], with 0 and 5 accepted; the store never changes |
| Service.GetBookByAuthor | src/main/java/com/example/demo/bookstore/service/BookStoreService.java:27-29 | the result holds only stored books, unchanged; for an author without `%` or `_` it holds exactly the books whose author contains it, ignoring case |
| Service.RateBook | src/test/java/com/example/demo/bookstore/service/BookStoreServiceTest.java:292-341 | an unknown user fails with user-not-found whether or not the book exists; a known user with an unknown book fails with book-not-found; then the call succeeds iff the rating is in [0, 5]; on success only the rated book and the rating user change, as the rating engine says |
| Service.NextIdIsFresh | src/main/java/com/example/demo/bookstore/model/Book.java:19-29 | in a valid store the next value of the id sequence names no stored book |
| Service.DeleteBookPreservesValid | src/main/java/com/example/demo/bookstore/service/BookStoreService.java:31-37 | deleting a book keeps the store invariant, including users whose entries now point at the deleted id |
| Service.UpdateBookPricePreservesValid | src/main/java/com/example/demo/bookstore/service/BookStoreService.java:40-47 | changing a price keeps the store invariant |
| Service.AddBookPreservesValid | src/main/java/com/example/demo/bookstore/service/BookStoreService.java:50-56 | adding a book that itself satisfies the aggregate invariant keeps the store invariant |
| Service.AddBookMayBreakValid | src/main/java/com/example/demo/bookstore/service/BookStoreService.java:50-56 | saving a book with count 100 and no reviews into an empty store succeeds and leaves a store that breaks the invariant, since the title check is the only check |
| Service.NoEntryBeforeFirstRating | src/test/java/com/example/demo/bookstore/service/BookStoreServiceTest.java:343-362 | in a valid store a user who has not rated a book holds no reviewed-book entry for it |
| Service.OtherUserStaysMirrored | src/test/java/com/example/demo/bookstore/service/BookStoreServiceTest.java:260-290 | a rating by one user leaves every other user's reviewed-book entries consistent with the book's reviews |
| Service.RaterStaysMirrored | src/test/java/com/example/demo/bookstore/service/BookStoreServiceTest.java:218-257 | after a rating the rater still holds at most one entry per book, and each entry still repeats the book's review: an added entry repeats the new review, a rewritten one the rewritten review |
| Service.RaterEntriesClassified | src/test/java/com/example/demo/bookstore/service/BookStoreServiceTest.java:241-257 | after a rating each of the rater's entries is either the entry for the rated book, carrying the new rating and comment, or an untouched entry for another book |
| Service.RateBookPreservesValid | src/test/java/com/example/demo/bookstore/service/BookStoreServiceTest.java:194-290 | every accepted rating keeps the whole store invariant: count, sum, one review per user, ratings in range, one entry per book per user, user entries mirroring book reviews |
| Rating.RateBookSide | src/test/java/com/example/demo/bookstore/service/BookStoreServiceTest.java:194-258 | a first rating by the user appends one review holding that user, rating and comment and raises the count by one; a repeat rating rewrites that user's review in place and keeps the count; afterwards the user's review holds the new values and every other user's review stays at the same position, unchanged; the average is updated incrementally, so average times count grows by the new rating on a first rating and by the new rating minus the old one on a repeat rating; the gap between the count and the number of reviews is kept, whatever it was |
| Rating.RateUserSide | src/test/java/com/example/demo/bookstore/service/BookStoreServiceTest.java:218-257 | a first rating with a non-empty comment appends exactly one entry with the book id, rating and comment; a first rating without one leaves the user unchanged; a repeat rating rewrites the user's entry for the book, if any, leaves entries for other books alone and never adds an entry |
| Rating.SubmitRating | src/test/java/com/example/demo/bookstore/service/BookStoreServiceTest.java:317-341 | a rating below 0 or above 5 fails with invalid-rating and changes nothing; every rating in [0, 5], ends included, is accepted and applied to both sides |
| Rating.RateBookSidePreservesAggregate | src/test/java/com/example/demo/bookstore/service/BookStoreServiceTest.java:260-290 | an accepted rating keeps the aggregate invariant: count equals the number of reviews, average times count equals the sum of ratings, one review per user, ratings in [0, 5] |
| Rating.FirstRatingKeepsAggregate | src/test/java/com/example/demo/bookstore/service/BookStoreServiceTest.java:194-216 | a first rating, which appends a review, keeps the aggregate invariant |
| Rating.RepeatRatingKeepsAggregate | src/test/java/com/example/demo/bookstore/service/BookStoreServiceTest.java:225-256 | a repeat rating, which replaces the old contribution with the new one, keeps the aggregate invariant |
| Rating.RateUserSideKeepsUniqueBooks | src/test/java/com/example/demo/bookstore/service/BookStoreServiceTest.java:241-257 | rating keeps one reviewed-book entry per book on the user, provided the user had none for this book before a first rating |
| Rating.AverageIsMean | src/test/java/com/example/demo/bookstore/service/BookStoreServiceTest.java:286-288 | under the aggregate invariant a rated book's average is the mean of its review ratings and lies in [0, 5] |
| Rating.RateAllPreservesAggregate | src/test/java/com/example/demo/bookstore/service/BookStoreServiceTest.java:260-290 | the aggregate invariant holds after any sequence of submissions, accepted or rejected |
| Rating.RateAllAppendsNewReviewers | src/test/java/com/example/demo/bookstore/service/BookStoreServiceTest.java:260-290 | valid ratings from distinct users who have not rated the book each append one review, in order, and each raises the count by one |
| Rating.FreshBookAverageIsMean | src/test/java/com/example/demo/bookstore/service/BookStoreServiceTest.java:260-290 | on a book nobody has rated, N valid ratings from N distinct users give count N, exactly their N reviews, and the mean of their ratings as the average |
| Rating.FirstRatingOfUnratedBook | src/test/java/com/example/demo/bookstore/service/BookStoreServiceTest.java:343-382 | on a book with null average and count, the first rating gives average = rating, count = 1 and exactly that one review; the user gains one matching entry when the comment is non-empty, and is left unchanged when the comment is empty or null |
| Rating.RerateSoleReview | src/test/java/com/example/demo/bookstore/service/BookStoreServiceTest.java:225-258 | when the rater's review is the book's only one, re-rating keeps count 1, rewrites the review in place, makes the average equal the new rating and sets the user's existing entry to the new rating |
| Rating.TwoRatingsAverage | src/test/java/com/example/demo/bookstore/service/BookStoreServiceTest.java:260-290 | ratings 4.0 and 3.0 from two users on an unrated book give count 2, two reviews and average 3.5 |
| Controller.GetBooks | src/main/java/com/example/demo/bookstore/controller/BookController.java:25-31 | an absent or empty author returns every stored book; any other author returns exactly the author-query result, which for a wildcard-free author holds the books whose author contains it, ignoring case |
| Controller.DeleteBook | src/main/java/com/example/demo/bookstore/controller/BookController.java:33-36 | the id goes to the service unchanged, so the request fails iff the book is unknown |
| Controller.UpdateBookPrice | src/main/java/com/example/demo/bookstore/controller/BookController.java:38-42 | the price goes to the service unchanged, null included, and a null price is rejected as invalid by the service |
| Controller.AddBook | src/main/java/com/example/demo/bookstore/controller/BookController.java:44-47 | the book goes to the service unchanged, so the request fails iff some stored title equals the new one ignoring case, and an accepted book is stored as sent under the next sequence id |
| Controller.RateBook | src/main/java/com/example/demo/bookstore/controller/BookController.java:49-52 | the path id and the request's user id, rating and comment go to the service unchanged; an accepted request leaves the user's review holding exactly the requested rating and comment, a null comment included |

## Left out

- Service.RateBook: requires a positive count when the rater already has a review of the book. A repeat rating divides by the stored count, and with count 0 Java would store Infinity or NaN, which exact reals cannot represent. A first rating divides by the count plus one and is modelled for any count. `Model.Valid` implies this precondition.
- Rating.RateBookSide: has the same precondition, for the same reason.
- Rating.SubmitRating: has the same precondition, for the same reason.
- Controller.RateBook: carries the service's precondition.
- Service.AddBook: the source saves any book, including one whose count disagrees with its reviews or whose average disagrees with their sum. The model saves it too, and `Service.AddBookPreservesValid` promises the invariant only for a book that satisfies the aggregate part.
- Service.GetBooks: `findAll` returns every stored book, which is the store's map itself, so this member has no contract of its own. `Controller.GetBooks` states what a listing returns.
- `getUsers`: `UserController.getUsers` and the service tests call it, but `BookStoreService.java` does not define it, so it is not modelled.
- The four-argument `rateBook` and the `averageRating`/`reviewData` fields are not in the main code. `Book.java` has `rating`, `additionalComments` and a single `Review`, and `ReviewedBook.java` has no comment field. The tests use the four-argument signature and the richer fields, and the model follows the tests.
- The controller passes `UUID` ids to service methods that take `int`. Both id kinds become natural numbers here.
- Java `double` arithmetic: rounding and drift in the incremental average, and NaN ratings or prices, which slip past `< 0 || > 5` and `<= 0`. Values are exact reals.
- `ratingCount` as a possibly negative `Integer`: it is a natural number here.
- `addBook` with a null book, which makes the title lookup throw, and with a null title. The title is a non-null string here.
- `addBook` of a book that already carries an id: JPA `save` would then update that row. The model always stores the book under the next sequence id, as for a new entity.
- Persistence effects: `@Transactional` dirty checking, the book and the user being saved as two separate writes, concurrent writers.
- UUID generation for users, the user listing `GET /api/v1/users` in `UserController` and the empty `UserRepository`; no operation creates users. Seed data (`DataGenerator`, both `BookConfiguration` files) and the JPA repository and controller-plumbing tests are left out too. None of these holds catalog logic.
- Locale-dependent or Unicode case folding. `LOWER` lower-cases ASCII letters only here. A LIKE escape character, which some databases default to backslash, is not modelled: only `%` and `_` are special.
- `publishDate` and `additionalComments` on a book: no operation reads them.
- Exception message texts. Only the error kind, and the id or title it names, is modelled.
- List order of query results: results are maps from id to book, since the store defines no order.
