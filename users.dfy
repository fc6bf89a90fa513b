/** The derived reputation fields of a user (User.java): the rank tier computed
    from the exchange count, the average of the ratings received, the defaults
    of a fresh user, and the getAllExchanges / getAllChats unions.
    The in-place mutators (updateRank, incrementExchangeCount,
    updateAverageRating) are methods of Store.Store and are specified by the
    functions below. */
module Users {
  import opened Domain

  /** The rank tier for an exchange count, as updateRank assigns it. */
  function RankFor(count: int): Rank
  {
    if count >= 50 then Gold else if count >= 20 then Silver else Bronze
  }

  /** Position of a rank in the order BRONZE < SILVER < GOLD. */
  function Level(r: Rank): nat
  {
    match r
    case Bronze => 0
    case Silver => 1
    case Gold => 2
  }

  /** The three bands and their boundary values. */
  lemma RankThresholds(count: int)
    ensures RankFor(count) == Gold <==> 50 <= count
    ensures RankFor(count) == Silver <==> 20 <= count < 50
    ensures RankFor(count) == Bronze <==> count < 20
    ensures RankFor(19) == Bronze && RankFor(20) == Silver
    ensures RankFor(49) == Silver && RankFor(50) == Gold
  {
  }

  lemma RankMonotone(a: int, b: int)
    requires a <= b
    ensures Level(RankFor(a)) <= Level(RankFor(b))
  {
  }

  /** A user as the entity's field initialisers leave it: no exchanges, BRONZE,
      and no ratings (averageRating 0.0). */
  function NewUser(username: string): (u: User)
    ensures u.username == username && u.exchangeCount == 0
    ensures u.rank == RankFor(u.exchangeCount)
    ensures AverageRating(u) == 0.0
  {
    User(username, 0, Bronze, 0, 0)
  }

  /** What incrementExchangeCount leaves behind: the count raised by one and the
      rank recomputed from the new count (Store.Store.IncrementExchangeCount). */
  function CountedExchange(u: User): User
  {
    var n := u.exchangeCount + 1;
    u.(exchangeCount := n, rank := RankFor(n))
  }

  /** `u` after `n` successive calls of incrementExchangeCount. */
  function CountedTimes(u: User, n: nat): User
  {
    if n == 0 then u else CountedExchange(CountedTimes(u, n - 1))
  }

  /** After n increments the count has grown by n and the rank is the rank of
      the new count; nothing else of the user changes. */
  lemma {:induction false} CountedTimesState(u: User, n: nat)
    ensures CountedTimes(u, n).exchangeCount == u.exchangeCount + n
    ensures n > 0 ==> CountedTimes(u, n).rank == RankFor(u.exchangeCount + n)
    ensures CountedTimes(u, n).username == u.username
    ensures CountedTimes(u, n).ratingSum == u.ratingSum
    ensures CountedTimes(u, n).ratingCount == u.ratingCount
  {
    if n > 0 {
      CountedTimesState(u, n - 1);
    }
  }

  /** Along any sequence of incrementExchangeCount calls on a user whose rank is
      consistent with its count, the rank never goes down. */
  lemma {:induction false} RankNeverDecreases(u: User, i: nat, j: nat)
    requires u.rank == RankFor(u.exchangeCount)
    requires i <= j
    ensures Level(CountedTimes(u, i).rank) <= Level(CountedTimes(u, j).rank)
  {
    CountedTimesState(u, i);
    CountedTimesState(u, j);
    RankMonotone(u.exchangeCount + i, u.exchangeCount + j);
  }

  /** The average rating: 0 without ratings, otherwise their mean. */
  function AverageRating(u: User): real
  {
    if u.ratingCount == 0 then 0.0 else u.ratingSum as real / u.ratingCount as real
  }

  /** With every rating between 1 and 5, so is their mean. */
  lemma AverageWithinRatingRange(u: User)
    requires 0 < u.ratingCount
    requires u.ratingCount <= u.ratingSum <= 5 * u.ratingCount
    ensures 1.0 <= AverageRating(u) <= 5.0
  {
    var c := u.ratingCount as real;
    var s := u.ratingSum as real;
    assert c <= s <= 5.0 * c;
    assert s / c * c == s;
  }

  // ----- ratings received, as reviewsReceived holds them -----

  /** Review `id` exists and is about user `u`. */
  predicate Received(reviews: map<ReviewId, Review>, u: UserId, id: ReviewId)
  {
    id in reviews && reviews[id].reviewed == u
  }

  /** Sum of the ratings `u` received from the reviews with identifier below `bound`. */
  function RatingSum(reviews: map<ReviewId, Review>, u: UserId, bound: nat): int
  {
    if bound == 0 then 0
    else RatingSum(reviews, u, bound - 1)
         + (if Received(reviews, u, bound - 1) then reviews[bound - 1].rating else 0)
  }

  /** Number of reviews about `u` with identifier below `bound`. */
  function RatingCount(reviews: map<ReviewId, Review>, u: UserId, bound: nat): nat
  {
    if bound == 0 then 0
    else RatingCount(reviews, u, bound - 1) + (if Received(reviews, u, bound - 1) then 1 else 0)
  }

  /** The mean received rating that updateAverageRating stores. */
  function MeanRating(reviews: map<ReviewId, Review>, u: UserId, bound: nat): real
  {
    var c := RatingCount(reviews, u, bound);
    if c == 0 then 0.0 else RatingSum(reviews, u, bound) as real / c as real
  }

  /** Two review tables that say the same about `u` below `bound` give `u` the
      same totals. */
  lemma {:induction false} RatingTotalsAgree(r1: map<ReviewId, Review>, r2: map<ReviewId, Review>, u: UserId, bound: nat)
    requires forall id: nat :: id < bound ==>
               Received(r1, u, id) == Received(r2, u, id)
               && (Received(r1, u, id) ==> r1[id].rating == r2[id].rating)
    ensures RatingSum(r1, u, bound) == RatingSum(r2, u, bound)
    ensures RatingCount(r1, u, bound) == RatingCount(r2, u, bound)
  {
    if bound > 0 {
      RatingTotalsAgree(r1, r2, u, bound - 1);
    }
  }

  /** A user no review is about has received nothing. */
  lemma {:induction false} NothingReceived(reviews: map<ReviewId, Review>, u: UserId, bound: nat)
    requires forall id :: id in reviews ==> reviews[id].reviewed != u
    ensures RatingSum(reviews, u, bound) == 0 && RatingCount(reviews, u, bound) == 0
  {
    if bound > 0 {
      NothingReceived(reviews, u, bound - 1);
    }
  }

  /** Saving a new review under the next free identifier adds its rating to the
      reviewed user's totals and leaves every other user's totals alone. */
  lemma RatingTotalsAfterInsert(reviews: map<ReviewId, Review>, bound: nat, r: Review, u: UserId)
    requires KeysBelow(reviews, bound)
    ensures RatingSum(reviews[bound := r], u, bound + 1)
         == RatingSum(reviews, u, bound) + (if r.reviewed == u then r.rating else 0)
    ensures RatingCount(reviews[bound := r], u, bound + 1)
         == RatingCount(reviews, u, bound) + (if r.reviewed == u then 1 else 0)
  {
    RatingTotalsAgree(reviews[bound := r], reviews, u, bound);
  }

  /** Deleting review `k` removes its rating from the reviewed user's totals and
      leaves every other user's totals alone. */
  lemma {:induction false} RatingTotalsAfterRemove(reviews: map<ReviewId, Review>, u: UserId, bound: nat, k: ReviewId)
    requires k in reviews && k < bound
    ensures RatingSum(reviews - {k}, u, bound)
         == RatingSum(reviews, u, bound) - (if reviews[k].reviewed == u then reviews[k].rating else 0)
    ensures RatingCount(reviews - {k}, u, bound)
         == RatingCount(reviews, u, bound) - (if reviews[k].reviewed == u then 1 else 0)
  {
    if bound - 1 == k {
      RatingTotalsAgree(reviews - {k}, reviews, u, k);
    } else {
      RatingTotalsAfterRemove(reviews, u, bound - 1, k);
    }
  }

  /** With every rating between 1 and 5 the sum lies between the count and five
      times the count. */
  lemma {:induction false} RatingTotalsBounded(reviews: map<ReviewId, Review>, u: UserId, bound: nat)
    requires forall id :: id in reviews ==> 1 <= reviews[id].rating <= 5
    ensures RatingCount(reviews, u, bound) <= RatingSum(reviews, u, bound) <= 5 * RatingCount(reviews, u, bound)
  {
    if bound > 0 {
      RatingTotalsBounded(reviews, u, bound - 1);
    }
  }

  // ----- getAllExchanges and getAllChats -----

  function ExchangesAsUser1(exchanges: map<ExchangeId, Exchange>, u: UserId): set<ExchangeId>
  {
    set id | id in exchanges && exchanges[id].user1 == u
  }

  function ExchangesAsUser2(exchanges: map<ExchangeId, Exchange>, u: UserId): set<ExchangeId>
  {
    set id | id in exchanges && exchanges[id].user2 == u
  }

  /** getAllExchanges: the exchanges in which `u` takes either side. */
  function AllExchanges(exchanges: map<ExchangeId, Exchange>, u: UserId): (r: set<ExchangeId>)
    ensures forall id :: id in r <==> id in exchanges && (exchanges[id].user1 == u || exchanges[id].user2 == u)
  {
    ExchangesAsUser1(exchanges, u) + ExchangesAsUser2(exchanges, u)
  }

  function ChatsAsUser1(chats: map<ChatId, Chat>, u: UserId): set<ChatId>
  {
    set id | id in chats && chats[id].user1 == u
  }

  function ChatsAsUser2(chats: map<ChatId, Chat>, u: UserId): set<ChatId>
  {
    set id | id in chats && chats[id].user2 == u
  }

  /** getAllChats: the chats in which `u` takes either side. */
  function AllChats(chats: map<ChatId, Chat>, u: UserId): (r: set<ChatId>)
    ensures forall id :: id in r <==> id in chats && (chats[id].user1 == u || chats[id].user2 == u)
  {
    ChatsAsUser1(chats, u) + ChatsAsUser2(chats, u)
  }
}
