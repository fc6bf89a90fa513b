/** The persistent state the services work on: one table per entity, keyed by
    identifier, with the next identifier each table hands out. `Valid` gathers
    the invariants every service operation keeps. The mutators of User.java
    (updateRank, incrementExchangeCount, updateAverageRating) update one user's
    record in place here. */
module Store {
  import opened Domain
  import opened Users
  import opened BookMatchRepository
  import opened ExchangeLifecycle

  // ----- invariants, stated on the tables themselves -----

  /** Every rank is the rank of its count (updateRank is the only writer). */
  ghost predicate RanksConsistent(users: map<UserId, User>)
  {
    forall u :: u in users ==> 0 <= users[u].exchangeCount && users[u].rank == RankFor(users[u].exchangeCount)
  }

  /** Every user's rating totals are those of the reviews it has received. */
  ghost predicate RatingsConsistent(users: map<UserId, User>, reviews: map<ReviewId, Review>, nextReviewId: nat)
  {
    forall u :: u in users ==>
      users[u].ratingSum == RatingSum(reviews, u, nextReviewId)
      && users[u].ratingCount == RatingCount(reviews, u, nextReviewId)
  }

  ghost predicate BooksOwned(users: map<UserId, User>, books: map<BookId, Book>)
  {
    forall b :: b in books ==> books[b].owner in users
  }

  /** Matches refer to stored users and books, and nobody holds a match on a
      book of their own. */
  ghost predicate MatchesWellFormed(users: map<UserId, User>, books: map<BookId, Book>, matches: map<MatchId, BookMatch>)
  {
    forall id :: id in matches ==>
      matches[id].user in users && matches[id].book in books
      && matches[id].user != books[matches[id].book].owner
  }

  /** The shape createExchange gives an exchange, which later steps keep: two
      distinct stored users, book1 owned by user1 and book2 owned by user2. */
  ghost predicate ExchangeWellFormed(users: map<UserId, User>, books: map<BookId, Book>, e: Exchange)
  {
    e.user1 in users && e.user2 in users && e.user1 != e.user2
    && e.book1 in books && e.book2 in books
    && books[e.book1].owner == e.user1 && books[e.book2].owner == e.user2
  }

  ghost predicate ExchangesWellFormed(users: map<UserId, User>, books: map<BookId, Book>, exchanges: map<ExchangeId, Exchange>)
  {
    forall id :: id in exchanges ==> ExchangeWellFormed(users, books, exchanges[id])
  }

  /** Every exchange's status agrees with its confirmation flags. */
  ghost predicate ExchangesCoherent(exchanges: map<ExchangeId, Exchange>)
  {
    forall id :: id in exchanges ==> Coherent(exchanges[id])
  }

  /** Reviews refer to two distinct stored users and carry a rating in 1..5. */
  ghost predicate ReviewsWellFormed(users: map<UserId, User>, reviews: map<ReviewId, Review>)
  {
    forall id :: id in reviews ==>
      reviews[id].reviewer in users && reviews[id].reviewed in users
      && reviews[id].reviewer != reviews[id].reviewed
      && 1 <= reviews[id].rating <= 5
  }

  /** At most one review per ordered (reviewer, reviewed) pair. */
  ghost predicate OneReviewPerPair(reviews: map<ReviewId, Review>)
  {
    forall i, j ::
      (i in reviews && j in reviews && i != j && reviews[i].reviewer == reviews[j].reviewer)
      ==> reviews[i].reviewed != reviews[j].reviewed
  }

  /** Book owners never change, and no book disappears. */
  ghost predicate OwnersKept(books: map<BookId, Book>, books': map<BookId, Book>)
  {
    books.Keys <= books'.Keys && forall b :: b in books ==> books'[b].owner == books[b].owner
  }

  lemma OwnersKeptPreservesMatches(users: map<UserId, User>, books: map<BookId, Book>, books': map<BookId, Book>, matches: map<MatchId, BookMatch>)
    requires MatchesWellFormed(users, books, matches) && OwnersKept(books, books')
    ensures MatchesWellFormed(users, books', matches)
  {
  }

  lemma OwnersKeptPreservesExchanges(users: map<UserId, User>, books: map<BookId, Book>, books': map<BookId, Book>, exchanges: map<ExchangeId, Exchange>)
    requires ExchangesWellFormed(users, books, exchanges) && OwnersKept(books, books')
    ensures ExchangesWellFormed(users, books', exchanges)
  {
    forall id | id in exchanges ensures ExchangeWellFormed(users, books', exchanges[id]) {
      assert ExchangeWellFormed(users, books, exchanges[id]);
    }
  }

  /** The invariants that refer to users only by identifier hold for any user
      table with the same identifiers. */
  lemma SameUserKeysKeepReferences(users: map<UserId, User>, users': map<UserId, User>, books: map<BookId, Book>,
                                   matches: map<MatchId, BookMatch>, exchanges: map<ExchangeId, Exchange>, reviews: map<ReviewId, Review>)
    requires users'.Keys == users.Keys
    requires BooksOwned(users, books) && MatchesWellFormed(users, books, matches)
    requires ExchangesWellFormed(users, books, exchanges) && ReviewsWellFormed(users, reviews)
    ensures BooksOwned(users', books) && MatchesWellFormed(users', books, matches)
    ensures ExchangesWellFormed(users', books, exchanges) && ReviewsWellFormed(users', reviews)
  {
    forall id | id in exchanges ensures ExchangeWellFormed(users', books, exchanges[id]) {
      assert ExchangeWellFormed(users, books, exchanges[id]);
    }
  }

  /** The invariants every service operation keeps, over the tables and the
      next identifier of each. */
  ghost predicate Consistent(users: map<UserId, User>, books: map<BookId, Book>, matches: map<MatchId, BookMatch>,
                             exchanges: map<ExchangeId, Exchange>, reviews: map<ReviewId, Review>,
                             nextUserId: nat, nextBookId: nat, nextMatchId: nat, nextExchangeId: nat, nextReviewId: nat)
  {
    && KeysBelow(users, nextUserId)
    && KeysBelow(books, nextBookId)
    && KeysBelow(matches, nextMatchId)
    && KeysBelow(exchanges, nextExchangeId)
    && KeysBelow(reviews, nextReviewId)
    && RanksConsistent(users)
    && RatingsConsistent(users, reviews, nextReviewId)
    && BooksOwned(users, books)
    && MatchesWellFormed(users, books, matches)
    && UniqueActiveMatches(matches)
    && ExchangesWellFormed(users, books, exchanges)
    && ExchangesCoherent(exchanges)
    && ReviewsWellFormed(users, reviews)
    && OneReviewPerPair(reviews)
  }

  /** Sum and count of the ratings `u` received, scanning the review table in
      identifier order (the stream sum of updateAverageRating). */
  method TallyRatings(reviews: map<ReviewId, Review>, bound: nat, u: UserId) returns (sum: int, count: nat)
    ensures sum == RatingSum(reviews, u, bound)
    ensures count == RatingCount(reviews, u, bound)
  {
    sum, count := 0, 0;
    var i := 0;
    while i < bound
      invariant i <= bound
      invariant sum == RatingSum(reviews, u, i)
      invariant count == RatingCount(reviews, u, i)
    {
      if i in reviews && reviews[i].reviewed == u {
        sum := sum + reviews[i].rating;
        count := count + 1;
      }
      i := i + 1;
    }
  }

  class Store {
    var users: map<UserId, User>
    var books: map<BookId, Book>
    var matches: map<MatchId, BookMatch>
    var exchanges: map<ExchangeId, Exchange>
    var reviews: map<ReviewId, Review>
    var nextUserId: nat
    var nextBookId: nat
    var nextMatchId: nat
    var nextExchangeId: nat
    var nextReviewId: nat

    ghost predicate Valid()
      reads this
    {
      Consistent(users, books, matches, exchanges, reviews,
                 nextUserId, nextBookId, nextMatchId, nextExchangeId, nextReviewId)
    }

    /** An empty store. */
    constructor ()
      ensures Valid()
      ensures users == map[] && books == map[] && matches == map[]
      ensures exchanges == map[] && reviews == map[]
    {
      users, books, matches, exchanges, reviews := map[], map[], map[], map[], map[];
      nextUserId, nextBookId, nextMatchId, nextExchangeId, nextReviewId := 0, 0, 0, 0, 0;
    }

    /** Saves a new user with the entity's default reputation fields. */
    method AddUser(username: string) returns (id: UserId)
      requires Valid()
      modifies this`users, this`nextUserId
      ensures Valid()
      ensures id == old(nextUserId) && id !in old(users)
      ensures users == old(users)[id := NewUser(username)]
      ensures nextUserId == id + 1
    {
      id := nextUserId;
      forall r | r in reviews ensures reviews[r].reviewed != id {
      }
      NothingReceived(reviews, id, nextReviewId);
      users := users[id := NewUser(username)];
      nextUserId := nextUserId + 1;
    }

    /** updateRank: the rank becomes the rank of the current count. */
    method UpdateRank(u: UserId)
      requires u in users
      modifies this`users
      ensures users == old(users)[u := old(users)[u].(rank := RankFor(old(users)[u].exchangeCount))]
    {
      var user := users[u];
      if user.exchangeCount >= 50 {
        users := users[u := user.(rank := Gold)];
      } else if user.exchangeCount >= 20 {
        users := users[u := user.(rank := Silver)];
      } else {
        users := users[u := user.(rank := Bronze)];
      }
    }

    /** incrementExchangeCount: one more exchange, then updateRank. */
    method IncrementExchangeCount(u: UserId)
      requires u in users
      modifies this`users
      ensures users == old(users)[u := CountedExchange(old(users)[u])]
      ensures users[u].exchangeCount == old(users)[u].exchangeCount + 1
      ensures users[u].rank == RankFor(users[u].exchangeCount)
    {
      users := users[u := users[u].(exchangeCount := users[u].exchangeCount + 1)];
      UpdateRank(u);
    }

    /** updateAverageRating: the rating totals become those of the reviews the
        user currently receives, so the average is their mean (0 without any). */
    method UpdateAverageRating(u: UserId)
      requires u in users
      modifies this`users
      ensures users == old(users)[u := old(users)[u].(
        ratingSum := RatingSum(reviews, u, nextReviewId),
        ratingCount := RatingCount(reviews, u, nextReviewId))]
      ensures AverageRating(users[u]) == MeanRating(reviews, u, nextReviewId)
    {
      var sum, count := TallyRatings(reviews, nextReviewId, u);
      users := users[u := users[u].(ratingSum := sum, ratingCount := count)];
    }
  }
}
