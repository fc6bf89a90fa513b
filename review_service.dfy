/** ReviewService: who may review whom, one review per ordered pair, deletion
    by the author only, and the reviewed user's average rating recomputed after
    each change. */
module ReviewService {
  import opened Domain
  import opened Users
  import opened ExchangeRepository
  import opened Store

  /** The anyMatch of createReview over findAllByUser(reviewed): a COMPLETED
      exchange of the reviewed user in which the reviewer takes part. */
  function HasCompletedExchange(exchanges: map<ExchangeId, Exchange>, reviewer: UserId, reviewed: UserId): (r: bool)
    ensures r <==> exists id :: id in exchanges && exchanges[id].status == Completed
                      && Involves(exchanges[id], reviewed) && Involves(exchanges[id], reviewer)
  {
    exists id :: id in FindByUserAndStatus(exchanges, reviewed, Completed) && Involves(exchanges[id], reviewer)
  }

  /** existsByReviewerAndReviewed(reviewer, reviewed). */
  predicate ExistsByReviewerAndReviewed(reviews: map<ReviewId, Review>, reviewer: UserId, reviewed: UserId)
  {
    exists id :: id in reviews && reviews[id].reviewer == reviewer && reviews[id].reviewed == reviewed
  }

  /** The checks of createReview in the order the source makes them: both users
      exist, they completed an exchange together, the reviewer has not yet
      reviewed this user, and (when the review is persisted) the two differ; the
      persist hook's IllegalStateException reaches the caller translated by the
      repository into InvalidDataAccessApiUsageException. */
  function CreateReviewGuard(users: map<UserId, User>, exchanges: map<ExchangeId, Exchange>, reviews: map<ReviewId, Review>,
                             reviewerId: UserId, reviewedId: UserId): (r: Option<Error>)
    ensures reviewerId !in users || reviewedId !in users ==> r == Some(ResourceNotFound)
    ensures reviewerId in users && reviewedId in users && !HasCompletedExchange(exchanges, reviewerId, reviewedId)
      ==> r == Some(BadRequest)
    ensures reviewerId in users && reviewedId in users && ExistsByReviewerAndReviewed(reviews, reviewerId, reviewedId)
      ==> r == Some(BadRequest)
    ensures r.None? <==>
      (reviewerId in users && reviewedId in users && reviewerId != reviewedId
       && HasCompletedExchange(exchanges, reviewerId, reviewedId)
       && !ExistsByReviewerAndReviewed(reviews, reviewerId, reviewedId))
    ensures r == Some(InvalidDataAccessApiUsage) <==>
      (reviewerId in users && reviewerId == reviewedId && HasCompletedExchange(exchanges, reviewerId, reviewedId)
       && !ExistsByReviewerAndReviewed(reviews, reviewerId, reviewedId))
  {
    if reviewerId !in users then Some(ResourceNotFound)
    else if reviewedId !in users then Some(ResourceNotFound)
    else if !HasCompletedExchange(exchanges, reviewerId, reviewedId) then Some(BadRequest)
    else if ExistsByReviewerAndReviewed(reviews, reviewerId, reviewedId) then Some(BadRequest)
    else if reviewerId == reviewedId then Some(InvalidDataAccessApiUsage)
    else None
  }

  /** The exchange check does not stop a self-review: any completed exchange of
      the user passes it, and only the entity's persist hook refuses the review,
      which the caller sees as InvalidDataAccessApiUsageException. */
  lemma SelfReviewRefusedAtPersist(users: map<UserId, User>, exchanges: map<ExchangeId, Exchange>, reviews: map<ReviewId, Review>,
                                   u: UserId, id: ExchangeId)
    requires u in users && id in exchanges && exchanges[id].status == Completed && Involves(exchanges[id], u)
    requires !ExistsByReviewerAndReviewed(reviews, u, u)
    ensures CreateReviewGuard(users, exchanges, reviews, u, u) == Some(InvalidDataAccessApiUsage)
  {
  }

  /** The users' table after the reviewed user's rating was recomputed from the
      review table (updateAverageRating). */
  function Rerated(users: map<UserId, User>, reviews: map<ReviewId, Review>, bound: nat, u: UserId): (r: map<UserId, User>)
    requires u in users
    ensures r.Keys == users.Keys
    ensures r[u].ratingSum == RatingSum(reviews, u, bound) && r[u].ratingCount == RatingCount(reviews, u, bound)
    ensures AverageRating(r[u]) == MeanRating(reviews, u, bound)
    ensures r[u].username == users[u].username && r[u].exchangeCount == users[u].exchangeCount && r[u].rank == users[u].rank
    ensures forall v :: v in users && v != u ==> r[v] == users[v]
  {
    users[u := users[u].(ratingSum := RatingSum(reviews, u, bound), ratingCount := RatingCount(reviews, u, bound))]
  }

  /** Saving a review of one stored user by another, the first of that pair,
      under the next identifier and recomputing the reviewed user's rating
      keeps the store consistent. */
  lemma CreateReviewKeepsConsistent(users: map<UserId, User>, books: map<BookId, Book>, matches: map<MatchId, BookMatch>,
                                    exchanges: map<ExchangeId, Exchange>, reviews: map<ReviewId, Review>,
                                    nu: nat, nb: nat, nm: nat, ne: nat, nr: nat, rv: Review,
                                    users': map<UserId, User>, reviews': map<ReviewId, Review>, nr': nat)
    requires Consistent(users, books, matches, exchanges, reviews, nu, nb, nm, ne, nr)
    requires rv.reviewer in users && rv.reviewed in users && rv.reviewer != rv.reviewed && 1 <= rv.rating <= 5
    requires !ExistsByReviewerAndReviewed(reviews, rv.reviewer, rv.reviewed)
    requires reviews' == reviews[nr := rv] && nr' == nr + 1 && users' == Rerated(users, reviews', nr', rv.reviewed)
    ensures Consistent(users', books, matches, exchanges, reviews', nu, nb, nm, ne, nr')
  {
    InsertKeepsRatings(users, reviews, nr, rv);
    InsertKeepsOneReviewPerPair(reviews, nr, rv);
    SameUserKeysKeepReferences(users, users', books, matches, exchanges, reviews);
    assert ReviewsWellFormed(users', reviews');
  }

  /** The reviewed user's recomputed totals, and everyone else's old ones, are
      the totals of the table with the new review. */
  lemma InsertKeepsRatings(users: map<UserId, User>, reviews: map<ReviewId, Review>, nr: nat, rv: Review)
    requires RatingsConsistent(users, reviews, nr) && KeysBelow(reviews, nr) && rv.reviewed in users
    ensures RatingsConsistent(Rerated(users, reviews[nr := rv], nr + 1, rv.reviewed), reviews[nr := rv], nr + 1)
  {
    var reviews' := reviews[nr := rv];
    var users' := Rerated(users, reviews', nr + 1, rv.reviewed);
    forall v | v in users'
      ensures users'[v].ratingSum == RatingSum(reviews', v, nr + 1) && users'[v].ratingCount == RatingCount(reviews', v, nr + 1)
    {
      RatingTotalsAfterInsert(reviews, nr, rv, v);
    }
  }

  /** A review of a pair that has none keeps one review per pair. */
  lemma InsertKeepsOneReviewPerPair(reviews: map<ReviewId, Review>, nr: nat, rv: Review)
    requires OneReviewPerPair(reviews) && KeysBelow(reviews, nr)
    requires !ExistsByReviewerAndReviewed(reviews, rv.reviewer, rv.reviewed)
    ensures OneReviewPerPair(reviews[nr := rv])
  {
    var reviews' := reviews[nr := rv];
    forall i, j | i in reviews' && j in reviews' && i != j && reviews'[i].reviewer == reviews'[j].reviewer
      ensures reviews'[i].reviewed != reviews'[j].reviewed
    {
      if i == nr {
        assert reviews'[j] == reviews[j];
      } else if j == nr {
        assert reviews'[i] == reviews[i];
      }
    }
  }

  /** Deleting a review and recomputing the reviewed user's rating keeps the
      store consistent. */
  lemma DeleteReviewKeepsConsistent(users: map<UserId, User>, books: map<BookId, Book>, matches: map<MatchId, BookMatch>,
                                    exchanges: map<ExchangeId, Exchange>, reviews: map<ReviewId, Review>,
                                    nu: nat, nb: nat, nm: nat, ne: nat, nr: nat, k: ReviewId,
                                    users': map<UserId, User>, reviews': map<ReviewId, Review>)
    requires Consistent(users, books, matches, exchanges, reviews, nu, nb, nm, ne, nr)
    requires k in reviews
    requires reviews' == reviews - {k} && users' == Rerated(users, reviews', nr, reviews[k].reviewed)
    ensures Consistent(users', books, matches, exchanges, reviews', nu, nb, nm, ne, nr)
  {
    forall v | v in users'
      ensures users'[v].ratingSum == RatingSum(reviews', v, nr) && users'[v].ratingCount == RatingCount(reviews', v, nr)
    {
      RatingTotalsAfterRemove(reviews, v, nr, k);
    }
  }

  /** createReview(reviewerId, request). The rating range 1..5 is the request's
      validation. */
  method CreateReview(s: Store, reviewerId: UserId, reviewedId: UserId, rating: int, comment: string, now: Time)
    returns (r: Result<Saved<Review>>)
    requires s.Valid()
    requires 1 <= rating <= 5
    modifies s`reviews, s`nextReviewId, s`users
    ensures s.Valid()
    ensures var g := CreateReviewGuard(old(s.users), s.exchanges, old(s.reviews), reviewerId, reviewedId);
      g.Some? ==>
        (r == Err(g.value) && s.reviews == old(s.reviews) && s.nextReviewId == old(s.nextReviewId)
         && s.users == old(s.users))
    ensures var g := CreateReviewGuard(old(s.users), s.exchanges, old(s.reviews), reviewerId, reviewedId);
      g.None? ==>
        var id := old(s.nextReviewId);
        var review := Review(reviewerId, reviewedId, rating, comment, now);
        && id !in old(s.reviews)
        && s.reviews == old(s.reviews)[id := review]
        && s.nextReviewId == id + 1
        && s.users == Rerated(old(s.users), s.reviews, s.nextReviewId, reviewedId)
        && r == Ok(Saved(id, review))
  {
    if reviewerId !in s.users {
      return Err(ResourceNotFound);
    }
    if reviewedId !in s.users {
      return Err(ResourceNotFound);
    }
    if !HasCompletedExchange(s.exchanges, reviewerId, reviewedId) {
      return Err(BadRequest);
    }
    if ExistsByReviewerAndReviewed(s.reviews, reviewerId, reviewedId) {
      return Err(BadRequest);
    }
    if reviewerId == reviewedId {
      return Err(InvalidDataAccessApiUsage);
    }
    var review := Review(reviewerId, reviewedId, rating, comment, now);
    assert CreateReviewGuard(s.users, s.exchanges, s.reviews, reviewerId, reviewedId).None?;
    var id := SaveReview(s, review);
    r := Ok(Saved(id, review));
  }

  /** The part of createReview after its checks: the review is saved under the
      next identifier and the reviewed user's rating is recomputed. */
  method SaveReview(s: Store, review: Review) returns (id: ReviewId)
    requires s.Valid()
    requires CreateReviewGuard(s.users, s.exchanges, s.reviews, review.reviewer, review.reviewed).None?
    requires 1 <= review.rating <= 5
    modifies s`reviews, s`nextReviewId, s`users
    ensures s.Valid()
    ensures id == old(s.nextReviewId) && id !in old(s.reviews)
    ensures s.reviews == old(s.reviews)[id := review] && s.nextReviewId == id + 1
    ensures s.users == Rerated(old(s.users), s.reviews, s.nextReviewId, review.reviewed)
  {
    id := s.nextReviewId;
    var reviews' := s.reviews[id := review];
    ghost var users' := Rerated(s.users, reviews', id + 1, review.reviewed);
    CreateReviewKeepsConsistent(s.users, s.books, s.matches, s.exchanges, s.reviews,
      s.nextUserId, s.nextBookId, s.nextMatchId, s.nextExchangeId, id, review, users', reviews', id + 1);
    SaveReviews(s, users', reviews', id + 1, review.reviewed);
  }

  /** The commit of createReview and deleteReview: the new review table, then
      updateAverageRating on the reviewed user. */
  method SaveReviews(s: Store, ghost users': map<UserId, User>, reviews': map<ReviewId, Review>, nr': nat, u: UserId)
    requires u in s.users && users' == Rerated(s.users, reviews', nr', u)
    requires Consistent(users', s.books, s.matches, s.exchanges, reviews',
                        s.nextUserId, s.nextBookId, s.nextMatchId, s.nextExchangeId, nr')
    modifies s`reviews, s`nextReviewId, s`users
    ensures s.Valid()
    ensures s.reviews == reviews' && s.nextReviewId == nr' && s.users == Rerated(old(s.users), reviews', nr', u)
  {
    s.reviews := reviews';
    s.nextReviewId := nr';
    s.UpdateAverageRating(u);
  }

  /** deleteReview(reviewerId, reviewId): the author removes the review, and the
      reviewed user's rating is recomputed without it. */
  method DeleteReview(s: Store, reviewerId: UserId, reviewId: ReviewId) returns (r: Outcome)
    requires s.Valid()
    modifies s`reviews, s`nextReviewId, s`users
    ensures s.Valid()
    ensures s.nextReviewId == old(s.nextReviewId)
    ensures reviewId !in old(s.reviews) ==>
      r == Fail(ResourceNotFound) && s.reviews == old(s.reviews) && s.users == old(s.users)
    ensures reviewId in old(s.reviews) && old(s.reviews)[reviewId].reviewer != reviewerId ==>
      r == Fail(BadRequest) && s.reviews == old(s.reviews) && s.users == old(s.users)
    ensures reviewId in old(s.reviews) && old(s.reviews)[reviewId].reviewer == reviewerId ==>
      && r == Done
      && s.reviews == old(s.reviews) - {reviewId}
      && s.users == Rerated(old(s.users), s.reviews, s.nextReviewId, old(s.reviews)[reviewId].reviewed)
  {
    if reviewId !in s.reviews {
      return Fail(ResourceNotFound);
    }
    var review := s.reviews[reviewId];
    if review.reviewer != reviewerId {
      return Fail(BadRequest);
    }
    var reviews' := s.reviews - {reviewId};
    ghost var users' := Rerated(s.users, reviews', s.nextReviewId, review.reviewed);
    DeleteReviewKeepsConsistent(s.users, s.books, s.matches, s.exchanges, s.reviews,
      s.nextUserId, s.nextBookId, s.nextMatchId, s.nextExchangeId, s.nextReviewId, reviewId, users', reviews');
    SaveReviews(s, users', reviews', s.nextReviewId, review.reviewed);
    r := Done;
  }

  /** getUserReviews(userId): the reviews the user received. */
  function GetUserReviews(s: Store, userId: UserId): (r: Result<set<ReviewId>>)
    reads s
    ensures userId !in s.users <==> r == Err(ResourceNotFound)
    ensures r.Ok? ==> forall id :: id in r.value <==> id in s.reviews && s.reviews[id].reviewed == userId
  {
    if userId !in s.users then Err(ResourceNotFound)
    else Ok(set id | id in s.reviews && s.reviews[id].reviewed == userId)
  }

  // ----- what the stored ratings mean -----

  /** In a consistent store at most one review exists per ordered pair, so a
      second review of the same user by the same reviewer is always refused. */
  lemma SecondReviewRefused(users: map<UserId, User>, exchanges: map<ExchangeId, Exchange>, reviews: map<ReviewId, Review>, id: ReviewId)
    requires id in reviews && reviews[id].reviewer in users && reviews[id].reviewed in users
    ensures CreateReviewGuard(users, exchanges, reviews, reviews[id].reviewer, reviews[id].reviewed) == Some(BadRequest)
  {
  }

  /** In a consistent store every user's average rating is the mean of the
      ratings they received, and lies in 1..5 once there is one. */
  lemma {:induction false} StoredAverageIsMean(users: map<UserId, User>, books: map<BookId, Book>, matches: map<MatchId, BookMatch>,
                                               exchanges: map<ExchangeId, Exchange>, reviews: map<ReviewId, Review>,
                                               nu: nat, nb: nat, nm: nat, ne: nat, nr: nat, u: UserId)
    requires Consistent(users, books, matches, exchanges, reviews, nu, nb, nm, ne, nr)
    requires u in users
    ensures AverageRating(users[u]) == MeanRating(reviews, u, nr)
    ensures users[u].ratingCount > 0 ==> 1.0 <= AverageRating(users[u]) <= 5.0
  {
    if users[u].ratingCount > 0 {
      RatingTotalsBounded(reviews, u, nr);
      AverageWithinRatingRange(users[u]);
    }
  }
}
