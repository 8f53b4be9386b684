/** The rating engine: one rating submission updates the book's review list
    and aggregate and, under the comment rule, the user's reviewed-book
    list. */
module Rating {
  import opened Wrappers
  import opened Model

  lemma SumAppend(rs: seq<ReviewEntry>, e: ReviewEntry)
    ensures SumRatings(rs + [e]) == SumRatings(rs) + e.rating
  {
    assert (rs + [e])[..|rs|] == rs;
  }

  /** Replacing one rating shifts the sum by the difference. */
  lemma {:induction false} SumUpdate(rs: seq<ReviewEntry>, i: nat, e: ReviewEntry)
    requires i < |rs|
    ensures SumRatings(rs[i := e]) == SumRatings(rs) - rs[i].rating + e.rating
    decreases |rs|
  {
    var n := |rs| - 1;
    if i == n {
      assert rs[i := e][..n] == rs[..n];
    } else {
      SumUpdate(rs[..n], i, e);
      assert rs[i := e][..n] == rs[..n][i := e];
    }
  }

  lemma {:induction false} SumBounds(rs: seq<ReviewEntry>)
    requires RatingsInRange(rs)
    ensures MinRating * |rs| as real <= SumRatings(rs) <= MaxRating * |rs| as real
    decreases |rs|
  {
    if |rs| > 0 {
      SumBounds(rs[..|rs| - 1]);
    }
  }

  /** Under the aggregate invariant the stored average is the mean of the
      review ratings, and so lies in [0, 5]. */
  lemma AverageIsMean(b: Book)
    requires AggregateOk(b) && Count(b) > 0
    ensures Average(b) == SumRatings(b.reviews) / Count(b) as real
    ensures MinRating <= Average(b) <= MaxRating
  {
    SumBounds(b.reviews);
  }

  /** `FindReview` returns the first position holding the user. */
  lemma FindReviewFirst(rs: seq<ReviewEntry>, u: UserId, k: nat)
    requires k < |rs| && rs[k].userId == u
    requires forall j :: 0 <= j < k ==> rs[j].userId != u
    ensures FindReview(rs, u) == Some(k)
  {
  }

  /** Appending a review moves no earlier user's position. */
  lemma FindReviewAppend(rs: seq<ReviewEntry>, e: ReviewEntry, v: UserId)
    ensures FindReview(rs + [e], v) ==
      if FindReview(rs, v).Some? then FindReview(rs, v)
      else if e.userId == v then Some(|rs|)
      else None
  {
    var rs' := rs + [e];
    assert forall j :: 0 <= j < |rs| ==> rs'[j] == rs[j];
    match FindReview(rs, v)
    case Some(k) =>
      FindReviewFirst(rs', v, k);
    case None =>
      if e.userId == v {
        FindReviewFirst(rs', v, |rs|);
      }
  }

  /** Rewriting a review in place, for the same user, moves nobody. */
  lemma FindReviewUpdate(rs: seq<ReviewEntry>, i: nat, e: ReviewEntry, v: UserId)
    requires i < |rs| && e.userId == rs[i].userId
    ensures FindReview(rs[i := e], v) == FindReview(rs, v)
  {
    var rs' := rs[i := e];
    assert forall j :: 0 <= j < |rs| ==> rs'[j].userId == rs[j].userId;
    match FindReview(rs, v)
    case Some(k) =>
      FindReviewFirst(rs', v, k);
    case None =>
  }

  lemma DivThenMul(x: real, d: real)
    requires d > 0.0
    ensures (x / d) * d == x
  {
  }

  /** The book side of one accepted rating. A first rating by `u` appends a
      review and bumps the count; a repeat rating rewrites `u`'s review in
      place and keeps the count. Either way the average is updated
      incrementally from the stored average and count, whatever they are:
      only a repeat rating divides by the stored count. */
  function RateBookSide(b: Book, u: UserId, rating: real, comment: Option<string>): (b': Book)
    requires FindReview(b.reviews, u).Some? ==> Count(b) > 0
    ensures b'.(averageRating := b.averageRating, ratingCount := b.ratingCount, reviews := b.reviews) == b
    ensures Count(b') - |b'.reviews| == Count(b) - |b.reviews|
    ensures FindReview(b.reviews, u).None? ==>
      && b'.reviews == b.reviews + [ReviewEntry(u, rating, comment)]
      && Count(b') == Count(b) + 1
      && Average(b') * Count(b') as real == Average(b) * Count(b) as real + rating
    ensures FindReview(b.reviews, u).Some? ==>
      var i := FindReview(b.reviews, u).value;
      && b'.reviews == b.reviews[i := ReviewEntry(u, rating, comment)]
      && Count(b') == Count(b)
      && Average(b') * Count(b') as real == Average(b) * Count(b) as real - b.reviews[i].rating + rating
    ensures FindReview(b'.reviews, u).Some?
    ensures b'.reviews[FindReview(b'.reviews, u).value] == ReviewEntry(u, rating, comment)
    ensures forall v :: v != u ==> FindReview(b'.reviews, v) == FindReview(b.reviews, v)
    ensures forall i :: 0 <= i < |b.reviews| && b.reviews[i].userId != u ==> b'.reviews[i] == b.reviews[i]
  {
    var n := Count(b);
    var entry := ReviewEntry(u, rating, comment);
    match FindReview(b.reviews, u)
    case None =>
      var b' := b.(averageRating := Some((Average(b) * n as real + rating) / (n + 1) as real),
                   ratingCount := Some(n + 1),
                   reviews := b.reviews + [entry]);
      DivThenMul(Average(b) * n as real + rating, (n + 1) as real);
      forall v
        ensures FindReview(b'.reviews, v) ==
          if FindReview(b.reviews, v).Some? then FindReview(b.reviews, v)
          else if entry.userId == v then Some(|b.reviews|)
          else None
      {
        FindReviewAppend(b.reviews, entry, v);
      }
      b'
    case Some(i) =>
      var b' := b.(averageRating := Some((Average(b) * n as real - b.reviews[i].rating + rating) / n as real),
                   reviews := b.reviews[i := entry]);
      DivThenMul(Average(b) * n as real - b.reviews[i].rating + rating, n as real);
      forall v
        ensures FindReview(b'.reviews, v) == FindReview(b.reviews, v)
      {
        FindReviewUpdate(b.reviews, i, entry, v);
      }
      b'
  }

  /** The user side of one accepted rating. A first rating records a
      reviewed-book entry only when the comment is non-empty; a repeat rating
      rewrites the existing entry for the book, if any, and never adds one. */
  function RateUserSide(usr: User, id: BookId, rating: real, comment: Option<string>, firstRating: bool): (usr': User)
    ensures usr'.(reviewedBooks := usr.reviewedBooks) == usr
    ensures firstRating && HasComment(comment) ==>
      usr'.reviewedBooks == usr.reviewedBooks + [ReviewedBookEntry(id, rating, comment)]
    ensures firstRating && !HasComment(comment) ==> usr' == usr
    ensures !firstRating ==> |usr'.reviewedBooks| == |usr.reviewedBooks|
    ensures !firstRating ==>
      forall k :: 0 <= k < |usr.reviewedBooks| && usr.reviewedBooks[k].bookId != id ==>
        usr'.reviewedBooks[k] == usr.reviewedBooks[k]
    ensures !firstRating && FindReviewedBook(usr.reviewedBooks, id).Some? ==>
      usr'.reviewedBooks[FindReviewedBook(usr.reviewedBooks, id).value] == ReviewedBookEntry(id, rating, comment)
    ensures !firstRating && FindReviewedBook(usr.reviewedBooks, id).None? ==> usr' == usr
  {
    var entry := ReviewedBookEntry(id, rating, comment);
    if firstRating then
      if HasComment(comment) then usr.(reviewedBooks := usr.reviewedBooks + [entry]) else usr
    else
      match FindReviewedBook(usr.reviewedBooks, id)
      case None => usr
      case Some(j) => usr.(reviewedBooks := usr.reviewedBooks[j := entry])
  }

  /** One rating submission against a resolved book and user: a rating
      outside [0, 5] is rejected; otherwise both sides are updated. */
  function SubmitRating(b: Book, id: BookId, usr: User, u: UserId, rating: real, comment: Option<string>)
    : (r: Result<(Book, User), Error>)
    requires FindReview(b.reviews, u).Some? ==> Count(b) > 0
    ensures r.Err? <==> !InRange(rating)
    ensures r.Err? ==> r.error == InvalidRating
    ensures r.Ok? ==> r.value.0 == RateBookSide(b, u, rating, comment)
    ensures r.Ok? ==> r.value.1 == RateUserSide(usr, id, rating, comment, FindReview(b.reviews, u).None?)
  {
    if rating < MinRating || rating > MaxRating then Err(InvalidRating)
    else
      var firstRating := FindReview(b.reviews, u).None?;
      Ok((RateBookSide(b, u, rating, comment), RateUserSide(usr, id, rating, comment, firstRating)))
  }

  /** Every accepted rating keeps the book-side invariant: count equals the
      number of reviews, average times count equals the sum of ratings, one
      review per user, all ratings in range. */
  lemma RateBookSidePreservesAggregate(b: Book, u: UserId, rating: real, comment: Option<string>)
    requires AggregateOk(b) && InRange(rating)
    ensures AggregateOk(RateBookSide(b, u, rating, comment))
  {
    if FindReview(b.reviews, u).None? {
      FirstRatingKeepsAggregate(b, u, rating, comment);
    } else {
      RepeatRatingKeepsAggregate(b, u, rating, comment);
    }
  }

  lemma FirstRatingKeepsAggregate(b: Book, u: UserId, rating: real, comment: Option<string>)
    requires AggregateOk(b) && InRange(rating) && FindReview(b.reviews, u).None?
    ensures AggregateOk(RateBookSide(b, u, rating, comment))
  {
    AppendKeepsAggregate(b, ReviewEntry(u, rating, comment), RateBookSide(b, u, rating, comment));
  }

  /** The aggregate step of a first rating, stated on the resulting book. */
  lemma AppendKeepsAggregate(b: Book, entry: ReviewEntry, b': Book)
    requires AggregateOk(b) && InRange(entry.rating) && FindReview(b.reviews, entry.userId).None?
    requires b'.reviews == b.reviews + [entry] && Count(b') == Count(b) + 1
    requires Average(b') * Count(b') as real == Average(b) * Count(b) as real + entry.rating
    ensures AggregateOk(b')
  {
    SumAppend(b.reviews, entry);
    AppendKeepsReviewsOk(b.reviews, entry);
  }

  /** Appending the review of a user not yet among the reviewers keeps one
      review per user and every rating in range. */
  lemma AppendKeepsReviewsOk(rs: seq<ReviewEntry>, entry: ReviewEntry)
    requires UniqueReviewers(rs) && RatingsInRange(rs) && InRange(entry.rating)
    requires FindReview(rs, entry.userId).None?
    ensures UniqueReviewers(rs + [entry]) && RatingsInRange(rs + [entry])
  {
    var rs' := rs + [entry];
    forall i, j | 0 <= i < j < |rs'|
      ensures rs'[i].userId != rs'[j].userId
    {
      assert rs'[i] == rs[i];
      if j < |rs| {
        assert rs'[j] == rs[j];
      }
    }
    forall i | 0 <= i < |rs'|
      ensures InRange(rs'[i].rating)
    {
      if i < |rs| {
        assert rs'[i] == rs[i];
      }
    }
  }

  lemma RepeatRatingKeepsAggregate(b: Book, u: UserId, rating: real, comment: Option<string>)
    requires AggregateOk(b) && InRange(rating) && FindReview(b.reviews, u).Some?
    ensures AggregateOk(RateBookSide(b, u, rating, comment))
  {
    var k := FindReview(b.reviews, u).value;
    RewriteKeepsAggregate(b, k, ReviewEntry(u, rating, comment), RateBookSide(b, u, rating, comment));
  }

  /** The aggregate step of a repeat rating, stated on the resulting book. */
  lemma RewriteKeepsAggregate(b: Book, k: nat, entry: ReviewEntry, b': Book)
    requires AggregateOk(b) && InRange(entry.rating) && k < |b.reviews| && b.reviews[k].userId == entry.userId
    requires b'.reviews == b.reviews[k := entry] && Count(b') == Count(b)
    requires Average(b') * Count(b') as real == Average(b) * Count(b) as real - b.reviews[k].rating + entry.rating
    ensures AggregateOk(b')
  {
    SumUpdate(b.reviews, k, entry);
    RewriteKeepsReviewsOk(b.reviews, k, entry);
  }

  /** Rewriting one review in place with the same user keeps one review per
      user and every rating in range. */
  lemma RewriteKeepsReviewsOk(rs: seq<ReviewEntry>, k: nat, entry: ReviewEntry)
    requires UniqueReviewers(rs) && RatingsInRange(rs) && InRange(entry.rating)
    requires k < |rs| && rs[k].userId == entry.userId
    ensures UniqueReviewers(rs[k := entry]) && RatingsInRange(rs[k := entry])
  {
    var rs' := rs[k := entry];
    forall i, j | 0 <= i < j < |rs'|
      ensures rs'[i].userId != rs'[j].userId
    {
      assert rs'[i].userId == rs[i].userId;
      assert rs'[j].userId == rs[j].userId;
    }
    forall i | 0 <= i < |rs'|
      ensures InRange(rs'[i].rating)
    {
      if i != k {
        assert rs'[i] == rs[i];
      }
    }
  }

  /** The user side keeps one entry per book, provided a first rating is
      only submitted when the user holds no entry for the book yet. */
  lemma RateUserSideKeepsUniqueBooks(usr: User, id: BookId, rating: real, comment: Option<string>, firstRating: bool)
    requires UniqueBooks(usr.reviewedBooks)
    requires firstRating ==> FindReviewedBook(usr.reviewedBooks, id).None?
    ensures UniqueBooks(RateUserSide(usr, id, rating, comment, firstRating).reviewedBooks)
  {
    var es' := RateUserSide(usr, id, rating, comment, firstRating).reviewedBooks;
    if !firstRating && FindReviewedBook(usr.reviewedBooks, id).Some? {
      var j := FindReviewedBook(usr.reviewedBooks, id).value;
      assert forall k :: 0 <= k < |es'| ==> es'[k].bookId == usr.reviewedBooks[k].bookId;
    }
  }

  /** One rating request as the engine sees it. */
  datatype Submission = Submission(userId: UserId, rating: real, comment: Option<string>)

  /** The book after a run of submissions, each rejected one leaving it as
      it was. A count at least the number of reviews keeps every repeat
      rating's division defined. */
  function RateAll(b: Book, subs: seq<Submission>): (b': Book)
    requires Count(b) >= |b.reviews|
    ensures Count(b') - |b'.reviews| == Count(b) - |b.reviews|
    ensures |b.reviews| <= |b'.reviews| <= |b.reviews| + |subs|
    decreases |subs|
  {
    if |subs| == 0 then b
    else
      var s := subs[0];
      var next := if InRange(s.rating) then RateBookSide(b, s.userId, s.rating, s.comment) else b;
      RateAll(next, subs[1..])
  }

  /** The aggregate invariant holds after any sequence of submissions. */
  lemma {:induction false} RateAllPreservesAggregate(b: Book, subs: seq<Submission>)
    requires AggregateOk(b)
    ensures AggregateOk(RateAll(b, subs))
    decreases |subs|
  {
    if |subs| > 0 {
      var s := subs[0];
      if InRange(s.rating) {
        RateBookSidePreservesAggregate(b, s.userId, s.rating, s.comment);
        RateAllPreservesAggregate(RateBookSide(b, s.userId, s.rating, s.comment), subs[1..]);
      } else {
        RateAllPreservesAggregate(b, subs[1..]);
      }
    }
  }

  /** The review entries a run of submissions from distinct users leaves. */
  function Entries(subs: seq<Submission>): seq<ReviewEntry>
  {
    seq(|subs|, i requires 0 <= i < |subs| => ReviewEntry(subs[i].userId, subs[i].rating, subs[i].comment))
  }

  predicate DistinctUsers(subs: seq<Submission>)
  {
    forall i, j :: 0 <= i < j < |subs| ==> subs[i].userId != subs[j].userId
  }

  predicate AllInRange(subs: seq<Submission>)
  {
    forall i :: 0 <= i < |subs| ==> InRange(subs[i].rating)
  }

  /** Valid submissions from users who have not reviewed the book yet each
      append one review, in order. */
  lemma {:induction false} RateAllAppendsNewReviewers(b: Book, subs: seq<Submission>)
    requires Count(b) == |b.reviews|
    requires AllInRange(subs) && DistinctUsers(subs)
    requires forall i :: 0 <= i < |subs| ==> FindReview(b.reviews, subs[i].userId).None?
    ensures RateAll(b, subs).reviews == b.reviews + Entries(subs)
    ensures Count(RateAll(b, subs)) == Count(b) + |subs|
    decreases |subs|
  {
    if |subs| == 0 {
      assert b.reviews + Entries(subs) == b.reviews;
    } else {
      var next := RateBookSide(b, subs[0].userId, subs[0].rating, subs[0].comment);
      NewReviewerStep(b, subs);
      SubmissionsTail(subs);
      RateAllAppendsNewReviewers(next, subs[1..]);
      EntriesCons(b.reviews, subs);
    }
  }

  lemma EntriesCons(rs: seq<ReviewEntry>, subs: seq<Submission>)
    requires |subs| > 0
    ensures rs + Entries(subs) == (rs + [Entries(subs)[0]]) + Entries(subs[1..])
  {
    assert Entries(subs) == [Entries(subs)[0]] + Entries(subs[1..]);
  }

  /** One step of the run above: the first submission appends its review and
      the remaining users are still new to the book. */
  lemma NewReviewerStep(b: Book, subs: seq<Submission>)
    requires Count(b) == |b.reviews| && |subs| > 0
    requires AllInRange(subs) && DistinctUsers(subs)
    requires forall i :: 0 <= i < |subs| ==> FindReview(b.reviews, subs[i].userId).None?
    ensures FindReview(b.reviews, subs[0].userId).None?
    ensures InRange(subs[0].rating)
    ensures RateBookSide(b, subs[0].userId, subs[0].rating, subs[0].comment).reviews == b.reviews + [Entries(subs)[0]]
    ensures Count(RateBookSide(b, subs[0].userId, subs[0].rating, subs[0].comment)) == Count(b) + 1
    ensures forall i :: 1 <= i < |subs| ==>
      FindReview(RateBookSide(b, subs[0].userId, subs[0].rating, subs[0].comment).reviews, subs[i].userId).None?
    ensures RateAll(b, subs) == RateAll(RateBookSide(b, subs[0].userId, subs[0].rating, subs[0].comment), subs[1..])
  {
    var s := subs[0];
    assert FindReview(b.reviews, s.userId).None?;
    assert InRange(s.rating);
    var entry := ReviewEntry(s.userId, s.rating, s.comment);
    var next := RateBookSide(b, s.userId, s.rating, s.comment);
    forall i | 1 <= i < |subs|
      ensures FindReview(next.reviews, subs[i].userId).None?
    {
      FindReviewAppend(b.reviews, entry, subs[i].userId);
    }
  }

  lemma SubmissionsTail(subs: seq<Submission>)
    requires |subs| > 0 && AllInRange(subs) && DistinctUsers(subs)
    ensures AllInRange(subs[1..]) && DistinctUsers(subs[1..])
  {
  }

  /** From a book nobody has rated, N valid ratings by N distinct users give
      count N and the mean of those ratings as the average. */
  lemma FreshBookAverageIsMean(b: Book, subs: seq<Submission>)
    requires b.reviews == [] && Count(b) == 0
    requires AllInRange(subs) && DistinctUsers(subs) && |subs| > 0
    ensures Count(RateAll(b, subs)) == |subs|
    ensures RateAll(b, subs).reviews == Entries(subs)
    ensures Average(RateAll(b, subs)) == SumRatings(Entries(subs)) / |subs| as real
  {
    RateAllAppendsNewReviewers(b, subs);
    assert b.reviews + Entries(subs) == Entries(subs);
    assert AggregateOk(b);
    RateAllPreservesAggregate(b, subs);
    AverageIsMean(RateAll(b, subs));
  }

  /** The first rating of a book nobody has rated yet (null average and
      count): the average becomes the rating, the count 1, and the book holds
      exactly that one review. The user gains one matching reviewed-book
      entry when the comment is non-empty and none otherwise. */
  lemma FirstRatingOfUnratedBook(b: Book, id: BookId, usr: User, u: UserId, rating: real, comment: Option<string>)
    requires b.reviews == [] && Count(b) == 0 && InRange(rating)
    ensures SubmitRating(b, id, usr, u, rating, comment).Ok?
    ensures var (b', usr') := SubmitRating(b, id, usr, u, rating, comment).value;
      && Average(b') == rating
      && Count(b') == 1
      && b'.reviews == [ReviewEntry(u, rating, comment)]
      && (HasComment(comment) ==> usr'.reviewedBooks == usr.reviewedBooks + [ReviewedBookEntry(id, rating, comment)])
      && (!HasComment(comment) ==> usr' == usr)
  {
    var b' := RateBookSide(b, u, rating, comment);
    assert FindReview(b.reviews, u).None?;
    assert b'.averageRating == Some((Average(b) * 0 as real + rating) / 1 as real);
    assert (Average(b) * 0 as real + rating) / 1 as real == rating;
  }

  /** A user re-rating a book that only they have rated: the count stays 1,
      their review is rewritten in place and the average becomes the new
      rating. Their reviewed-book entry for the book, if any, takes the new
      rating and comment. */
  lemma RerateSoleReview(b: Book, id: BookId, usr: User, u: UserId, rating: real, comment: Option<string>)
    requires AggregateOk(b) && |b.reviews| == 1 && b.reviews[0].userId == u && InRange(rating)
    requires FindReviewedBook(usr.reviewedBooks, id).Some?
    ensures SubmitRating(b, id, usr, u, rating, comment).Ok?
    ensures var (b', usr') := SubmitRating(b, id, usr, u, rating, comment).value;
      && Count(b') == 1
      && b'.reviews == [ReviewEntry(u, rating, comment)]
      && Average(b') == rating
      && usr'.reviewedBooks[FindReviewedBook(usr.reviewedBooks, id).value].rating == rating
      && |usr'.reviewedBooks| == |usr.reviewedBooks|
  {
    var b' := RateBookSide(b, u, rating, comment);
    RepeatRatingKeepsAggregate(b, u, rating, comment);
    assert SumRatings(b'.reviews) == rating by {
      assert b'.reviews[..0] == [];
    }
  }

  /** Two distinct users rating 4.0 and then 3.0 leave count 2, two
      reviews and average 3.5. */
  lemma TwoRatingsAverage(b: Book)
    requires b.reviews == [] && Count(b) == 0
    ensures var subs := [Submission(1, 4.0, Some("First review")), Submission(2, 3.0, Some("Second review"))];
      && Count(RateAll(b, subs)) == 2
      && |RateAll(b, subs).reviews| == 2
      && Average(RateAll(b, subs)) == 3.5
  {
    var subs := [Submission(1, 4.0, Some("First review")), Submission(2, 3.0, Some("Second review"))];
    FreshBookAverageIsMean(b, subs);
    TwoRatingsSum(subs);
  }

  lemma TwoRatingsSum(subs: seq<Submission>)
    requires subs == [Submission(1, 4.0, Some("First review")), Submission(2, 3.0, Some("Second review"))]
    ensures SumRatings(Entries(subs)) == 7.0
  {
    var es := Entries(subs);
    assert es == [ReviewEntry(1, 4.0, Some("First review")), ReviewEntry(2, 3.0, Some("Second review"))];
    assert SumRatings(es[..1]) == 4.0 by {
      assert es[..1][..0] == [];
    }
  }
}
