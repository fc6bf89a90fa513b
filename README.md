# Book exchange trade workflow, modelled in Dafny

This project models the trade workflow of a book-swap backend. Users list books
and register interest in other users' books (a *match*). When two users hold
active matches on each other's books, either of them can propose an
*exchange*. The exchange then goes through a lifecycle of its own: a meetup is
arranged, both parties confirm, and the exchange completes. It can also be
cancelled. Completing an exchange raises both users' exchange counts and
recomputes their rank tiers (BRONZE, SILVER, GOLD). It also takes both books
out of circulation. After a completed exchange a user may review the other
party once, and the reviewed user's average rating is recomputed from the
reviews they have received.

Layout, one module per file:

- `domain.dfy` (`Domain`): identifiers, the records (User, Book, BookMatch,
  Exchange, Review, Chat), the five error kinds (`ResourceNotFound`,
  `BadRequest`, `IllegalState`, `IncorrectResultSize`, `InvalidDataAccessApiUsage`) and the `Result` /
  `Outcome` wrappers.
- `users.dfy` (`Users`): the rank rule, the rating totals and the
  getAllExchanges / getAllChats unions of `User.java`, as functions and lemmas.
- `match_repository.dfy`, `book_repository.dfy`, `exchange_repository.dfy`:
  the derived repository queries, as selection predicates over the tables.
- `book_search_like.dfy` (`BookSearchLike`): the search query as written,
  with SQL `LIKE` semantics, set against the substring search it was meant to
  perform (see "## Findings").
- `store.dfy` (`Store`): every table in one `class Store` of maps, with the
  global invariant `Valid()` and the in-place User mutators (updateRank,
  incrementExchangeCount, updateAverageRating) as methods.
- `match_service.dfy`, `exchange_lifecycle.dfy`, `exchange_service.dfy`,
  `review_service.dfy`, `book_service.dfy`: the service operations.
  `ExchangeLifecycle` gives each exchange call as a pure step on one record,
  and proves facts about whole runs of calls. `ExchangeService` performs those
  steps on the store.

Every state-changing service operation is a method on a `Store`. Each one:

- ties its result and new state, case by case, to the guard and step functions
  beside it;
- keeps `Valid()`. `Valid()` says that every reference points to a stored
  record, that matches and exchanges are well formed (a user never matches
  their own book, the two sides of an exchange are distinct users each owning
  the book they hand over), that status and confirmation flags agree, that each
  user's rank and rating totals are those of the stored counts and reviews, and
  that each ordered pair has at most one review.

The clock (`LocalDateTime.now()`) is a `now` parameter. Identity generation is
a counter per table, kept above every identifier in use.

Behaviour of the code that the model keeps:

- *Which book is whose.* createExchange makes the proposer user1 and the owner
  of the wanted book user2. book1 is the reciprocal match's book, which user1
  owns; book2 is the initiating match's book, which user2 owns
  (`ExchangeService.java:69-73`).
- *Error kinds.* The services throw three exception kinds themselves, and a repository call can raise two more:
  - `ResourceNotFoundException` for a missing record;
  - `BadRequestException` for a caller outside an exchange, for a proposal
    from someone else's match, a wrong exchange state, a past meetup time, no
    reciprocal match, a deleted review of someone else, and for a duplicate or
    ineligible review;
  - `IllegalStateException` for createMatch's conflicts and for cancelMatch by
    anyone but the match's creator (`MatchService.java:74-76`).
  - A self-review passes the service's own checks. The `Review` entity's
    persist hook (`Review.java:33-39`) throws `IllegalStateException` inside
    `reviewRepository.save` (`ReviewService.java:58`). The repository's
    exception translation turns that into `InvalidDataAccessApiUsageException`,
    which is what createReview's caller sees (the error
    `InvalidDataAccessApiUsage`).
- *Several rows for a single-row query.* `findReciprocalMatch` and
  `findByUserAndInterestedInBookAndActiveTrue` are declared to return an
  `Optional`. When the query selects several rows, Spring Data raises
  `IncorrectResultSizeDataAccessException` (the error `IncorrectResultSize`).
  The model's scan `BookMatchRepository.FindUnique` answers no row, one row,
  or several rows. For the reciprocal query this happens whenever the partner
  holds active matches on two of the proposer's books. createExchange then
  raises (`ExchangeService.TwoReciprocalsRaise`), and so do the hasReciprocal
  flag, createMatch's response (which rolls the new match back) and
  getUserMatches. The pair query never selects several rows in a valid store
  (`BookMatchRepository.PairQueryNeverRaises`).
- *Cancelling a cancelled exchange.* cancelExchange only refuses COMPLETED
  exchanges (`ExchangeService.java:156`), so a CANCELLED exchange can be
  cancelled again.
- *The initiating match's activity.* createExchange never checks whether the
  initiating match is still active. `ExchangeService.InitiatingMatchActivityIgnored`
  proves that the guard's verdict does not depend on it. So a match that
  already went into an exchange can propose again once its user's partner
  holds a new active match on another of the user's books. The initiating
  book then goes into a second exchange (`ExchangeService.DeactivatedMatchProposesAgain`).
- *A meetup time equal to now.* `isBefore(now)` accepts a meetup time equal to
  now (`ExchangeLifecycle.MeetupAtNowAccepted`).
- *Wildcards in the search term.* searchBooks runs the `LIKE` query as
  written, so `%` and `_` in the term act as wildcards (see "## Findings").

## Model

| member | source | states |
|---|---|---|
| Users.RankThresholds | src/main/java/com/example/bookexchange/model/entity/User.java:93-101 | GOLD exactly from 50 exchanges, SILVER exactly from 20 to 49, BRONZE below 20, including the boundary values 19/20 and 49/50 |
| Users.RankMonotone | src/main/java/com/example/bookexchange/model/entity/User.java:93-101 | a larger exchange count never gives a lower rank tier |
| Users.NewUser | src/main/java/com/example/bookexchange/model/entity/User.java:45-51 | a fresh user has no exchanges, the rank of count 0 and average rating 0.0 |
| Users.CountedTimesState | src/main/java/com/example/bookexchange/model/entity/User.java:115-118 | after n calls of incrementExchangeCount the count has grown by n, the rank is the rank of the new count, and the name and rating totals are unchanged |
| Users.RankNeverDecreases | src/main/java/com/example/bookexchange/model/entity/User.java:115-118 | starting from a consistent rank, the rank never goes down along any sequence of increments |
| Users.AverageWithinRatingRange | src/main/java/com/example/bookexchange/model/entity/User.java:103-113 | with every rating in 1..5 the average lies in 1.0..5.0 |
| Users.RatingTotalsAgree | src/main/java/com/example/bookexchange/model/entity/User.java:103-113 | two review tables that agree on a user's received ratings give the same sum and count |
| Users.NothingReceived | src/main/java/com/example/bookexchange/model/entity/User.java:103-108 | a user whom no review concerns has rating sum 0 and rating count 0 |
| Users.RatingTotalsAfterInsert | src/main/java/com/example/bookexchange/service/ReviewService.java:58-61 | saving a review adds its rating to the reviewed user's totals and changes no one else's |
| Users.RatingTotalsAfterRemove | src/main/java/com/example/bookexchange/service/ReviewService.java:86-89 | deleting a review subtracts its rating from the reviewed user's totals and changes no one else's |
| Users.RatingTotalsBounded | src/main/java/com/example/bookexchange/model/dto/request/ReviewRequest.java:15-17 | with ratings in 1..5 the sum lies between the count and five times the count |
| Users.AllExchanges | src/main/java/com/example/bookexchange/model/entity/User.java:86-91 | an exchange is in the union exactly when the user is user1 or user2 of it |
| Users.AllChats | src/main/java/com/example/bookexchange/model/entity/User.java:79-84 | a chat is in the union exactly when the user is user1 or user2 of it |
| Store.TallyRatings | src/main/java/com/example/bookexchange/model/entity/User.java:107-112 | the loop over the review table returns exactly the sum and the count of the ratings the user received |
| Store.Store.AddUser | src/main/java/com/example/bookexchange/model/entity/User.java:45-51 | a new user is stored under a fresh identifier with the default reputation fields, and the store stays valid |
| Store.Store.UpdateRank | src/main/java/com/example/bookexchange/model/entity/User.java:93-101 | only the user's rank changes, to the rank of the current count |
| Store.Store.IncrementExchangeCount | src/main/java/com/example/bookexchange/model/entity/User.java:115-118 | the count rises by one and the rank becomes the rank of the new count; no other user changes |
| Store.Store.UpdateAverageRating | src/main/java/com/example/bookexchange/model/entity/User.java:103-113 | only the user's rating totals change, and the average becomes the mean of the received ratings, 0.0 when there are none |
| BookMatchRepository.FindUnique | src/main/java/com/example/bookexchange/repository/BookMatchRepository.java:21-25 | no row exactly when nothing below the bound is selected; one row only when that identifier is the single selected one below the bound; several rows exactly when two distinct identifiers below the bound are selected |
| BookMatchRepository.FindUniqueOverTable | src/main/java/com/example/bookexchange/repository/BookMatchRepository.java:21-25 | when every key lies below the bound, the three answers say the same about the whole table: no selected match, exactly one, or two distinct ones |
| BookMatchRepository.FindUniqueAgree | src/main/java/com/example/bookexchange/repository/BookMatchRepository.java:21-25 | two tables that select the same identifiers give the same answer |
| BookMatchRepository.FindReciprocalMatch | src/main/java/com/example/bookexchange/repository/BookMatchRepository.java:21-25 | one row is an active match of the given user on one of the given books and the only such match; no row exactly when there is none; several rows (the Optional query raises) exactly when there are two |
| BookMatchRepository.FindByUserAndInterestedInBookAndActiveTrue | src/main/java/com/example/bookexchange/repository/BookMatchRepository.java:18 | one row is the only active match of that user on that book; no row exactly when there is none; several rows exactly when there are two |
| BookMatchRepository.FindByUserAndActiveTrue | src/main/java/com/example/bookexchange/repository/BookMatchRepository.java:15 | exactly the user's active matches |
| BookMatchRepository.FindByInterestedInBookAndActiveTrue | src/main/java/com/example/bookexchange/repository/BookMatchRepository.java:28 | exactly the active matches on the book |
| BookMatchRepository.FindByUserAndBookIsTheActiveMatch | src/main/java/com/example/bookexchange/repository/BookMatchRepository.java:18 | with at most one active match per pair, the query returns that match as its single row whenever it exists |
| BookMatchRepository.PairQueryNeverRaises | src/main/java/com/example/bookexchange/repository/BookMatchRepository.java:18 | with at most one active match per pair, the pair query never selects several rows |
| BookMatchRepository.ActiveListsMeetAtThePair | src/main/java/com/example/bookexchange/repository/BookMatchRepository.java:15-28 | the user's active matches and the book's active matches have in common exactly the match the pair query returns, and nothing when it returns no row |
| BookRepository.FindByOwner | src/main/java/com/example/bookexchange/repository/BookRepository.java:12 | exactly the books the user owns |
| BookRepository.FindByAvailableTrue | src/main/java/com/example/bookexchange/repository/BookRepository.java:14 | exactly the available books |
| BookRepository.FindAvailableBooksForUser | src/main/java/com/example/bookexchange/repository/BookRepository.java:17-18 | exactly the available books the user does not own |
| BookRepository.Lower | src/main/java/com/example/bookexchange/repository/BookRepository.java:23-24 | lower-casing keeps the length and maps each character by ASCII LOWER |
| BookRepository.SearchAvailableBooks | src/main/java/com/example/bookexchange/repository/BookRepository.java:21-25 | the available books of other owners whose title or author contains the term, ignoring case |
| BookRepository.EmptyTermSelectsAllAvailable | src/main/java/com/example/bookexchange/repository/BookRepository.java:21-25 | an empty term selects every available book of other owners |
| BookSearchLike.PercentMatchesAnything | src/main/java/com/example/bookexchange/repository/BookRepository.java:23-24 | the pattern `%` matches every string |
| BookSearchLike.LikeTrailingPercent | src/main/java/com/example/bookexchange/repository/BookRepository.java:23-24 | a literal pattern followed by `%` matches exactly the strings it is a prefix of |
| BookSearchLike.LikeLeadingPercent | src/main/java/com/example/bookexchange/repository/BookRepository.java:23-24 | `%` followed by a literal pattern matches exactly the strings in which it occurs |
| BookSearchLike.LikeIsSubstringForPlainTerms | src/main/java/com/example/bookexchange/repository/BookRepository.java:23-24 | for a term without wildcards, `%term%` matches exactly the strings that contain the term |
| BookSearchLike.LowerPattern | src/main/java/com/example/bookexchange/repository/BookRepository.java:23-24 | lower-casing a pattern introduces no wildcard and removes none |
| BookSearchLike.SearchAvailableBooksAsWritten | src/main/java/com/example/bookexchange/repository/BookRepository.java:21-25 | the query as written selects only available books of other owners, and agrees with the substring search when the term has no wildcard |
| BookSearchLike.PlainTermsAgree | src/main/java/com/example/bookexchange/repository/BookRepository.java:21-25 | for a term without `%` or `_`, the query as written and the substring search select the same books |
| BookSearchLike.UnderscoreTermMatchesAnyTitle | src/main/java/com/example/bookexchange/repository/BookRepository.java:23-24 | the term `_` selects a book whose title and author contain no underscore |
| ExchangeRepository.FindAllByUser | src/main/java/com/example/bookexchange/repository/ExchangeRepository.java:14-15 | exactly the exchanges the user takes part in |
| ExchangeRepository.FindActiveExchangesByUser | src/main/java/com/example/bookexchange/repository/ExchangeRepository.java:18-21 | exactly the user's exchanges in status PROPOSED or MEETUP_ARRANGED |
| ExchangeRepository.FindByUserAndStatus | src/main/java/com/example/bookexchange/repository/ExchangeRepository.java:24-27 | exactly the user's exchanges in the given status |
| ExchangeRepository.ActiveAndHistoryPartition | src/main/java/com/example/bookexchange/repository/ExchangeRepository.java:14-27 | a user's active exchanges and COMPLETED exchanges are disjoint, and together with the CANCELLED ones they make up all of the user's exchanges |
| ExchangeRepository.AllExchangesIsFindAllByUser | src/main/java/com/example/bookexchange/model/entity/User.java:86-91 | the entity's getAllExchanges union equals the repository's findAllByUser |
| MatchService.HasReciprocal | src/main/java/com/example/bookexchange/service/MatchService.java:90-95 | false exactly when the book's owner holds no active match on a book owned by the match's user; an IncorrectResultSize error exactly when the owner holds two; true only when such a match exists |
| MatchService.CreateMatchGuard | src/main/java/com/example/bookexchange/service/MatchService.java:26-46 | a missing user or book gives NotFound; an unavailable book or the user's own book gives IllegalState; then an existing active match gives IllegalState, several give IncorrectResultSize, and None means the user holds no active match on the book |
| MatchService.CreateMatchGuardNeverRaises | src/main/java/com/example/bookexchange/service/MatchService.java:41-46 | in a valid store the duplicate check never gives IncorrectResultSize |
| MatchService.CreateMatchKeepsInvariants | src/main/java/com/example/bookexchange/service/MatchService.java:48-54 | the new active match and the matchCount increment keep matches well formed and at most one active match per (user, book) pair |
| MatchService.NewMatchKeepsConsistent | src/main/java/com/example/bookexchange/service/MatchService.java:48-54 | for a request the guard accepts, the book table with that book's matchCount one higher and the match table with the new active match under the next identifier, with the counter advanced, form a consistent store |
| MatchService.CreateMatch | src/main/java/com/example/bookexchange/service/MatchService.java:25-57 | a refusal returns the guard's error and changes nothing; otherwise the response is built on the new tables, and the new active match and the matchCount increment are kept exactly when building it succeeds |
| MatchService.WithNewMatch | src/main/java/com/example/bookexchange/service/MatchService.java:48-54 | the new tables: the book's matchCount up by one and the new active match of the user on the book at the next identifier, nothing else changed |
| MatchService.SaveMatch | src/main/java/com/example/bookexchange/service/MatchService.java:48-54 | given that the new book and match tables form a consistent store with the next match identifier advanced, it stores exactly those tables, advances the counter by one and leaves the store valid |
| MatchService.GetUserMatches | src/main/java/com/example/bookexchange/service/MatchService.java:59-67 | NotFound for a missing user; IncorrectResultSize exactly when the hasReciprocal lookup of one of the user's active matches raises; otherwise exactly the user's active matches, each with its hasReciprocal flag |
| MatchService.DeactivationKeepsInvariants | src/main/java/com/example/bookexchange/service/MatchService.java:78-79 | deactivating a match keeps the match invariants |
| MatchService.CancelMatch | src/main/java/com/example/bookexchange/service/MatchService.java:69-80 | NotFound for a missing match, IllegalState for a caller who did not create it; otherwise only that match becomes inactive |
| MatchService.NewMatchIsListed | src/main/java/com/example/bookexchange/service/MatchService.java:59-67 | after createMatch, the creator's active list gains exactly the new match |
| MatchService.CancelledMatchIsUnlisted | src/main/java/com/example/bookexchange/service/MatchService.java:69-80 | after cancelMatch, the creator's active list loses exactly that match |
| ExchangeLifecycle.IsUserPartOfExchange | src/main/java/com/example/bookexchange/service/ExchangeService.java:196-199 | true exactly when the user is user1 or user2 of the exchange |
| ExchangeLifecycle.OutsidersChangeNothing | src/main/java/com/example/bookexchange/service/ExchangeService.java:86-167 | a run of setMeetupDetails, confirmExchange and cancelExchange calls by users who are neither user1 nor user2 is refused throughout: the record stays as it is and nothing is completed |
| ExchangeLifecycle.Proposal | src/main/java/com/example/bookexchange/service/ExchangeService.java:69-74 | a proposed exchange is PROPOSED, with no meetup and neither party confirmed |
| ExchangeLifecycle.SetMeetup | src/main/java/com/example/bookexchange/service/ExchangeService.java:91-108 | refused (BadRequest) exactly when the caller is not a participant, the exchange is not PROPOSED or the time is before now; otherwise MEETUP_ARRANGED with that time and place, and nothing else changes |
| ExchangeLifecycle.Confirm | src/main/java/com/example/bookexchange/service/ExchangeService.java:119-139 | refused (BadRequest) exactly for a non-participant or a status other than MEETUP_ARRANGED; otherwise sets user1's flag when the caller is user1, and user2's flag otherwise, and gives COMPLETED exactly when both flags are set |
| ExchangeLifecycle.Cancel | src/main/java/com/example/bookexchange/service/ExchangeService.java:150-163 | refused (BadRequest) exactly for a non-participant or a COMPLETED exchange; otherwise CANCELLED with both flags cleared |
| ExchangeLifecycle.View | src/main/java/com/example/bookexchange/service/ExchangeService.java:174-179 | only a participant sees the record, unchanged |
| ExchangeLifecycle.ProposalCoherent | src/main/java/com/example/bookexchange/model/entity/Exchange.java:39-46 | a fresh proposal has coherent status and flags |
| ExchangeLifecycle.StepKeepsCoherent | src/main/java/com/example/bookexchange/service/ExchangeService.java:86-167 | every call keeps status, flags and meetup time coherent |
| ExchangeLifecycle.RunKeepsCoherent | src/main/java/com/example/bookexchange/service/ExchangeService.java:86-167 | any sequence of calls keeps the record coherent |
| ExchangeLifecycle.RunKeepsDeal | src/main/java/com/example/bookexchange/service/ExchangeService.java:86-167 | no sequence of calls changes the users, the books or the proposal time |
| ExchangeLifecycle.CompletedIsFinal | src/main/java/com/example/bookexchange/service/ExchangeService.java:124-158 | from COMPLETED, every call is refused: the record stays as it is and nothing is completed again |
| ExchangeLifecycle.CompletedStaysCompleted | src/main/java/com/example/bookexchange/service/ExchangeService.java:124-158 | once a run reaches COMPLETED, it stays COMPLETED |
| ExchangeLifecycle.CancelledStaysCancelled | src/main/java/com/example/bookexchange/service/ExchangeService.java:96-160 | from CANCELLED, every run ends CANCELLED, and no call completes the exchange |
| ExchangeLifecycle.CompletesAtMostOnce | src/main/java/com/example/bookexchange/service/ExchangeService.java:136-139 | along any run of a coherent exchange, completeExchange runs at most once, and exactly once when the run ends COMPLETED after starting elsewhere |
| ExchangeLifecycle.MeetupAtNowAccepted | src/main/java/com/example/bookexchange/service/ExchangeService.java:102 | a meetup time equal to now is accepted |
| ExchangeLifecycle.ConfirmIdempotent | src/main/java/com/example/bookexchange/service/ExchangeService.java:129-134 | when a confirmation does not complete the exchange, repeating it by the same caller gives the same result |
| ExchangeLifecycle.BothConfirmationsComplete | src/main/java/com/example/bookexchange/service/ExchangeService.java:114-143 | arranging a meetup and then confirming by both parties completes the exchange, and completes it once |
| ExchangeService.ReciprocalOf | src/main/java/com/example/bookexchange/service/ExchangeService.java:59-62 | one row is the only active match of the book's owner on a book of the match's user; no row exactly when there is none; several rows exactly when there are two |
| ExchangeService.ProposeGuard | src/main/java/com/example/bookexchange/service/ExchangeService.java:49-66 | NotFound for a missing match, BadRequest for a non-creator; for the creator, BadRequest exactly when there is no reciprocal match and IncorrectResultSize exactly when there are two; otherwise the only reciprocal's identifier, which differs from the initiating match |
| ExchangeService.NewExchange | src/main/java/com/example/bookexchange/service/ExchangeService.java:69-74 | user1 is the proposer, user2 the owner of the wanted book, book1 the reciprocal's book, book2 the initiating match's book, and the exchange is a PROPOSED proposal |
| ExchangeService.ProposalWellFormed | src/main/java/com/example/bookexchange/service/ExchangeService.java:69-73 | the proposal's two users are distinct stored users, user1 owns book1 and user2 owns book2 |
| ExchangeService.Deactivate | src/main/java/com/example/bookexchange/service/ExchangeService.java:77-80 | both matches become inactive and nothing else in the table changes |
| ExchangeService.InitiatingMatchActivityIgnored | src/main/java/com/example/bookexchange/service/ExchangeService.java:50-66 | the guard gives the same answer whether or not the initiating match is active |
| ExchangeService.TwoReciprocalsRaise | src/main/java/com/example/bookexchange/service/ExchangeService.java:59-66 | when the partner holds active matches on two of the proposer's books, createExchange fails with IncorrectResultSize |
| ExchangeService.DeactivatedMatchProposesAgain | src/main/java/com/example/bookexchange/service/ExchangeService.java:48-80 | a match already deactivated by one exchange proposes a second one once the partner holds a new active match on another of the proposer's books |
| ExchangeService.DeactivateKeepsInvariants | src/main/java/com/example/bookexchange/service/ExchangeService.java:77-80 | deactivating the pair keeps the match invariants |
| ExchangeService.CreateExchangeKeepsConsistent | src/main/java/com/example/bookexchange/service/ExchangeService.java:48-84 | for a proposal the guard accepts with reciprocal rid, the match table with the pair deactivated and the exchange table with the proposal under the next identifier, with the counter advanced, form a consistent store |
| ExchangeService.SaveExchange | src/main/java/com/example/bookexchange/service/ExchangeService.java:76-83 | given that the new match and exchange tables form a consistent store with the next exchange identifier advanced, it stores exactly those tables, advances the counter by one and leaves the store valid |
| ExchangeService.ExchangeUpdateKeepsConsistent | src/main/java/com/example/bookexchange/service/ExchangeService.java:86-167 | storing a coherent record of the same deal keeps the store consistent |
| ExchangeService.CreateExchange | src/main/java/com/example/bookexchange/service/ExchangeService.java:48-84 | a refusal returns the guard's error and changes nothing; otherwise both matches are deactivated and the proposal is saved under a fresh identifier |
| ExchangeService.SetMeetupDetails | src/main/java/com/example/bookexchange/service/ExchangeService.java:86-112 | NotFound for a missing exchange; otherwise the stored record becomes the SetMeetup step's result, or stays as it is on a refusal |
| ExchangeService.CountExchange | src/main/java/com/example/bookexchange/service/ExchangeService.java:186-187 | each participant counts one more exchange with its rank recomputed (two more if both sides are one user); no other user and no other field changes |
| ExchangeService.WithdrawBooks | src/main/java/com/example/bookexchange/service/ExchangeService.java:190-193 | both books become unavailable and count one more exchange each; no other book and no other field changes |
| ExchangeService.CountExchangeKeepsRanks | src/main/java/com/example/bookexchange/service/ExchangeService.java:186-187 | after a completion, every rank is still the rank of its count |
| ExchangeService.CompletionKeepsInvariants | src/main/java/com/example/bookexchange/service/ExchangeService.java:182-194 | a completion keeps every invariant that mentions users or books |
| ExchangeService.CompletionKeepsConsistent | src/main/java/com/example/bookexchange/service/ExchangeService.java:182-194 | storing the completed record together with the updated users and books keeps the store consistent |
| ExchangeService.CompleteExchange | src/main/java/com/example/bookexchange/service/ExchangeService.java:182-194 | the record becomes COMPLETED, the users are updated as CountExchange says and the books as WithdrawBooks says |
| ExchangeService.SaveCompletion | src/main/java/com/example/bookexchange/service/ExchangeService.java:137-141 | given that the counted users, the withdrawn books and the COMPLETED record form a consistent store, the record is stored as COMPLETED and the users and books are updated as CountExchange and WithdrawBooks say, leaving the store valid |
| ExchangeService.ConfirmExchange | src/main/java/com/example/bookexchange/service/ExchangeService.java:114-143 | NotFound for a missing exchange; a refused Confirm changes nothing; a confirmation that completes also updates users and books; any other confirmation updates only the record |
| ExchangeService.CancelExchange | src/main/java/com/example/bookexchange/service/ExchangeService.java:145-167 | NotFound for a missing exchange; otherwise the stored record becomes the Cancel step's result, or stays as it is on a refusal |
| ExchangeService.GetExchangeDetails | src/main/java/com/example/bookexchange/service/ExchangeService.java:169-180 | NotFound for a missing exchange, BadRequest for a non-participant, otherwise the stored record |
| ExchangeService.GetUserActiveExchanges | src/main/java/com/example/bookexchange/service/ExchangeService.java:28-36 | NotFound exactly for a missing user; otherwise the user's PROPOSED and MEETUP_ARRANGED exchanges |
| ExchangeService.GetUserExchangeHistory | src/main/java/com/example/bookexchange/service/ExchangeService.java:38-46 | NotFound exactly for a missing user; otherwise the user's COMPLETED exchanges |
| ExchangeService.HistoryIsConfirmed | src/main/java/com/example/bookexchange/service/ExchangeService.java:38-46 | in a valid store every exchange in a history was confirmed by both parties, and history and active list are disjoint |
| ReviewService.HasCompletedExchange | src/main/java/com/example/bookexchange/service/ReviewService.java:37-41 | true exactly when a COMPLETED exchange involves both the reviewed user and the reviewer |
| ReviewService.CreateReviewGuard | src/main/java/com/example/bookexchange/service/ReviewService.java:30-50 | NotFound for a missing user; BadRequest without a completed exchange or for a duplicate; InvalidDataAccessApiUsage exactly for a self-review of a stored user with a completed exchange and no review of themself yet; None exactly for distinct users who completed an exchange and have no review yet |
| ReviewService.SelfReviewRefusedAtPersist | src/main/java/com/example/bookexchange/model/entity/Review.java:33-39 | a user with a completed exchange passes the service's own checks on a self-review, and the entity validation refuses it, seen by the caller as InvalidDataAccessApiUsage |
| ReviewService.Rerated | src/main/java/com/example/bookexchange/model/entity/User.java:103-113 | only the user's rating totals change, and the average becomes the mean of the received ratings |
| ReviewService.CreateReviewKeepsConsistent | src/main/java/com/example/bookexchange/service/ReviewService.java:52-62 | saving a review with rating 1..5 of one stored user by another, the first of that pair, under the next identifier and recomputing the reviewed user's rating keeps the store consistent |
| ReviewService.DeleteReviewKeepsConsistent | src/main/java/com/example/bookexchange/service/ReviewService.java:86-90 | deleting a review and recomputing the reviewed user's rating keeps the store consistent |
| ReviewService.SaveReview | src/main/java/com/example/bookexchange/service/ReviewService.java:52-62 | for a review the guard accepts, it is stored under the next identifier, which was unused, the counter advances by one and the reviewed user's rating is recomputed over the new table, leaving the store valid |
| ReviewService.SaveReviews | src/main/java/com/example/bookexchange/service/ReviewService.java:58-62 | given that the new review table with the reviewed user re-rated over it is consistent, it stores exactly that table and counter and the re-rated users, leaving the store valid |
| ReviewService.CreateReview | src/main/java/com/example/bookexchange/service/ReviewService.java:28-65 | a refusal changes nothing; otherwise the review is saved under a fresh identifier and the reviewed user's average becomes the mean of their ratings |
| ReviewService.DeleteReview | src/main/java/com/example/bookexchange/service/ReviewService.java:77-91 | NotFound for a missing review, BadRequest for a caller who did not write it; otherwise the review is removed and the reviewed user's rating is recomputed |
| ReviewService.GetUserReviews | src/main/java/com/example/bookexchange/service/ReviewService.java:67-75 | NotFound exactly for a missing user; otherwise exactly the reviews the user received |
| ReviewService.SecondReviewRefused | src/main/java/com/example/bookexchange/service/ReviewService.java:47-50 | once a review of one user by another exists, a second one is refused with BadRequest |
| ReviewService.StoredAverageIsMean | src/main/java/com/example/bookexchange/model/entity/User.java:103-113 | in a valid store every user's average is the mean of the ratings received, and lies in 1.0..5.0 once there is one |
| BookService.NewBook | src/main/java/com/example/bookexchange/service/BookService.java:43-57 | the saved book carries the request's fields, the caller as owner, is available and has all counters 0 |
| BookService.Edited | src/main/java/com/example/bookexchange/service/BookService.java:63-67 | the four request fields are replaced; owner, counters and availability stay |
| BookService.EditsDoNotAccumulate | src/main/java/com/example/bookexchange/service/BookService.java:59-71 | of two successive edits only the second remains |
| BookService.Toggled | src/main/java/com/example/bookexchange/service/BookService.java:77 | availability is flipped and nothing else changes |
| BookService.ToggleTwiceRestores | src/main/java/com/example/bookexchange/service/BookService.java:73-80 | two toggles restore the book |
| BookService.BookEditKeepsConsistent | src/main/java/com/example/bookexchange/service/BookService.java:59-80 | changing a book without changing its owner keeps the store consistent |
| BookService.NewBookKeepsConsistent | src/main/java/com/example/bookexchange/service/BookService.java:43-57 | adding a book of a stored user keeps the store consistent |
| BookService.GetAvailableBooks | src/main/java/com/example/bookexchange/service/BookService.java:22-27 | exactly the available books the user does not own |
| BookService.SearchBooks | src/main/java/com/example/bookexchange/service/BookService.java:29-34 | the available books of other owners whose title or author matches the term's `LIKE` pattern, ignoring case; for a term without `%` or `_`, exactly those whose title or author contains the term |
| BookService.GetBookById | src/main/java/com/example/bookexchange/service/BookService.java:36-41 | NotFound exactly for a missing book; otherwise the stored book |
| BookService.CreateBook | src/main/java/com/example/bookexchange/service/BookService.java:43-57 | NotFound for a missing user, changing nothing; otherwise the new book is stored under a fresh identifier |
| BookService.UpdateBook | src/main/java/com/example/bookexchange/service/BookService.java:59-71 | NotFound for a missing book; otherwise only that book changes, as Edited says |
| BookService.ToggleBookAvailability | src/main/java/com/example/bookexchange/service/BookService.java:73-80 | NotFound for a missing book; otherwise only that book changes, as Toggled says |

## Left out

- HTTP controllers, request and response DTO mapping, and UserService are not part of this model. Responses are projected as `Saved(id, record)`, or as identifier sets for the list operations.
- Transactions, concurrency and the persistence context are not modelled; every operation is atomic on the store.
- The clock is a `now` parameter and the meetup time is an integer, so `LocalDateTime` arithmetic and time zones are not modelled.
- Java `int` / `Long` overflow of the counters is not modelled; counts are unbounded naturals.
- Store.Store.UpdateAverageRating: the source stores a `double`, but the model stores the integer rating sum and count and gives the average as an exact `real`. Rounding is not modelled.
- Store.Store.UpdateAverageRating: the source averages the user's in-memory `reviewsReceived` collection, which the ORM may not have refreshed after the save or delete. The model averages the review table itself, and so describes the intended, freshly loaded state.
- ReviewService.CreateReview: the rating range 1..5 is a precondition, because the request's bean validation enforces it before the service runs.
- MatchService.GetUserMatches: returns each active match's hasReciprocal flag, not the full MatchResponse (username, book and timestamps).
- ExchangeService.SetMeetupDetails: null request fields are not modelled. The location is always stored as present.
- Entity equality is by identifier; Lombok-generated `equals` is taken to agree with it.
- `findReciprocalMatch` with an empty book collection selects nothing, which is the usual handling of an empty SQL `IN` list.
- BookRepository.Lower: folds only the ASCII capitals 'A'..'Z', where the database's `LOWER` also folds other capitals (a title "ÉMILE" is not found by the term "émile"); this affects BookRepository.SearchAvailableBooks, BookSearchLike.SearchAvailableBooksAsWritten and BookService.SearchBooks.
- BookSearchLike.Like: the pattern has no escape character, as in standard SQL `LIKE` without an `ESCAPE` clause. Engines whose `LIKE` takes backslash as the default escape (MySQL, PostgreSQL) differ from the model for terms that contain a backslash.
- updateBook has no owner check, and toggleBookAvailability can make a book that was traded away available again. The model keeps both behaviours.
- Chats are modelled only through the getAllChats union; messaging is outside the trade core.

## Findings

| source | as written | input that shows it | evidently intended | confidence | as-written member | corrected member |
|---|---|---|---|---|---|---|
| src/main/java/com/example/bookexchange/repository/BookRepository.java:21-25 | the search term is concatenated into a `LIKE` pattern unescaped, so `%` and `_` in the term act as wildcards (the model's `LIKE` has no escape character; with a backslash default escape, a backslash in the term would also change the pattern) | the term `_` selects the available book "Dune" by "Herbert", which contains no underscore | a case-insensitive substring search on title or author | not executed | BookSearchLike.UnderscoreTermMatchesAnyTitle | BookRepository.SearchAvailableBooks |

BookService.SearchBooks runs the query as written. The corrected query is
`BookRepository.SearchAvailableBooks`, and `BookSearchLike.PlainTermsAgree`
proves that the two select the same books for every term without `%` or `_`.
