/** ExchangeService: proposing an exchange from a reciprocal pair of matches,
    arranging the meetup, confirming, completing, cancelling, and the
    participant's views. The record-level rules are ExchangeLifecycle's; here
    they are applied to the store, together with what completion does to the
    two users and the two books. */
module ExchangeService {
  import opened Domain
  import opened Users
  import opened BookRepository
  import opened BookMatchRepository
  import opened ExchangeRepository
  import opened ExchangeLifecycle
  import opened Store
  import MatchService

  // ----- createExchange -----

  /** The reciprocal query createExchange runs for a match: an active match of
      the target book's owner on one of the match user's books. The query is
      declared to return an Optional, so it raises when it selects several. */
  function ReciprocalOf(books: map<BookId, Book>, matches: map<MatchId, BookMatch>, bound: nat, m: BookMatch): (r: SingleResult)
    requires m.book in books
    ensures r.OneRow? ==> r.id in matches && MatchService.Reciprocates(books, m, matches[r.id])
    ensures KeysBelow(matches, bound) ==>
      (r.NoRow? <==> forall id :: id in matches ==> !MatchService.Reciprocates(books, m, matches[id]))
    ensures KeysBelow(matches, bound) && r.OneRow? ==>
      forall id :: id in matches && id != r.id ==> !MatchService.Reciprocates(books, m, matches[id])
    ensures KeysBelow(matches, bound) ==>
      (r.SeveralRows? <==> exists i, j :: i in matches && j in matches && i != j
                             && MatchService.Reciprocates(books, m, matches[i]) && MatchService.Reciprocates(books, m, matches[j]))
  {
    FindReciprocalMatch(matches, bound, books[m.book].owner, FindByOwner(books, m.user))
  }

  /** The checks of createExchange in the order the source makes them: the
      match exists, the caller created it, the reciprocal query finds a match.
      On success, that reciprocal match. Whether the initiating match is still
      active is not checked. */
  function ProposeGuard(users: map<UserId, User>, books: map<BookId, Book>, matches: map<MatchId, BookMatch>, bound: nat, userId: UserId, matchId: MatchId): (r: Result<MatchId>)
    requires MatchesWellFormed(users, books, matches)
    ensures matchId !in matches ==> r == Err(ResourceNotFound)
    ensures matchId in matches && matches[matchId].user != userId ==> r == Err(BadRequest)
    ensures matchId in matches && matches[matchId].user == userId && KeysBelow(matches, bound) ==>
      (r == Err(BadRequest) <==> forall id :: id in matches ==> !MatchService.Reciprocates(books, matches[matchId], matches[id]))
    ensures matchId in matches && matches[matchId].user == userId && KeysBelow(matches, bound) ==>
      (r == Err(IncorrectResultSize) <==>
         exists i, j :: i in matches && j in matches && i != j
           && MatchService.Reciprocates(books, matches[matchId], matches[i]) && MatchService.Reciprocates(books, matches[matchId], matches[j]))
    ensures r.Err? ==> r.error != IllegalState
    ensures r.Ok? ==>
      (matchId in matches && matches[matchId].user == userId
       && r.value in matches && r.value != matchId
       && MatchService.Reciprocates(books, matches[matchId], matches[r.value]))
    ensures r.Ok? && KeysBelow(matches, bound) ==>
      forall id :: id in matches && id != r.value ==> !MatchService.Reciprocates(books, matches[matchId], matches[id])
  {
    if matchId !in matches then Err(ResourceNotFound)
    else if matches[matchId].user != userId then Err(BadRequest)
    else
      match ReciprocalOf(books, matches, bound, matches[matchId])
      case NoRow => Err(BadRequest)
      case OneRow(rid) => Ok(rid)
      case SeveralRows => Err(IncorrectResultSize)
  }

  /** The exchange proposed for an initiating match and its reciprocal:
      user1 created the initiating match, user2 owns its book; book1 is the
      reciprocal match's book, book2 the initiating match's. */
  function NewExchange(books: map<BookId, Book>, matches: map<MatchId, BookMatch>, matchId: MatchId, rid: MatchId, now: Time): (e: Exchange)
    requires matchId in matches && rid in matches && matches[matchId].book in books
    ensures e == Proposal(matches[matchId].user, books[matches[matchId].book].owner, matches[rid].book, matches[matchId].book, now)
  {
    var m := matches[matchId];
    Proposal(m.user, books[m.book].owner, matches[rid].book, m.book, now)
  }

  /** A proposed exchange has two distinct stored users, each owning the book
      they give. */
  lemma ProposalWellFormed(users: map<UserId, User>, books: map<BookId, Book>, matches: map<MatchId, BookMatch>, bound: nat, userId: UserId, matchId: MatchId, now: Time)
    requires MatchesWellFormed(users, books, matches) && BooksOwned(users, books)
    requires ProposeGuard(users, books, matches, bound, userId, matchId).Ok?
    ensures var rid := ProposeGuard(users, books, matches, bound, userId, matchId).value;
      ExchangeWellFormed(users, books, NewExchange(books, matches, matchId, rid, now))
  {
  }

  /** Both matches of the pair become inactive; nothing else changes. */
  function Deactivate(matches: map<MatchId, BookMatch>, a: MatchId, b: MatchId): (r: map<MatchId, BookMatch>)
    requires a in matches && b in matches
    ensures r.Keys == matches.Keys
    ensures !r[a].active && !r[b].active
    ensures forall id :: id in matches ==> r[id] == matches[id].(active := r[id].active)
    ensures forall id :: id in matches && id != a && id != b ==> r[id] == matches[id]
  {
    matches[a := matches[a].(active := false)][b := matches[b].(active := false)]
  }

  /** createExchange never looks at whether the initiating match is active:
      the same call is accepted, with the same reciprocal, after that match
      was cancelled. */
  lemma InitiatingMatchActivityIgnored(users: map<UserId, User>, books: map<BookId, Book>, matches: map<MatchId, BookMatch>, bound: nat, userId: UserId, matchId: MatchId)
    requires MatchesWellFormed(users, books, matches) && matchId in matches
    ensures var cancelled := matches[matchId := matches[matchId].(active := false)];
      MatchesWellFormed(users, books, cancelled)
      && ProposeGuard(users, books, cancelled, bound, userId, matchId) == ProposeGuard(users, books, matches, bound, userId, matchId)
  {
    var cancelled := matches[matchId := matches[matchId].(active := false)];
    var m := matches[matchId];
    var q := BookMatchRepository.ReciprocalOf(books[m.book].owner, FindByOwner(books, m.user));
    forall id: nat | id < bound ensures SelectedAt(cancelled, q, id) <==> SelectedAt(matches, q, id) {
      if id == matchId {
        assert !Selects(q, m) && !Selects(q, cancelled[id]);
      }
    }
    FindUniqueAgree(cancelled, matches, q, bound);
  }

  // ----- two small tables that show how the reciprocal query behaves -----

  /** User 1 owns books 10 and 11, user 2 owns book 20. */
  function SampleUsers(): map<UserId, User>
  {
    map[1 := NewUser("ann"), 2 := NewUser("bob")]
  }

  function SampleBooks(): map<BookId, Book>
  {
    map[10 := Book("Dune", "Herbert", "", "", 0, 0, 0, true, 1),
        11 := Book("Emma", "Austen", "", "", 0, 0, 0, true, 1),
        20 := Book("Ulysses", "Joyce", "", "", 0, 0, 0, true, 2)]
  }

  /** When the partner holds active matches on two of the proposer's books,
      the Optional-returning reciprocal query selects two rows, and
      createExchange raises instead of choosing one. */
  lemma TwoReciprocalsRaise()
    ensures var matches := map[0 := BookMatch(1, 20, 0, true), 1 := BookMatch(2, 10, 0, true), 2 := BookMatch(2, 11, 0, true)];
      MatchesWellFormed(SampleUsers(), SampleBooks(), matches)
      && ProposeGuard(SampleUsers(), SampleBooks(), matches, 3, 1, 0) == Err(IncorrectResultSize)
  {
    var books := SampleBooks();
    var matches := map[0 := BookMatch(1, 20, 0, true), 1 := BookMatch(2, 10, 0, true), 2 := BookMatch(2, 11, 0, true)];
    assert MatchService.Reciprocates(books, matches[0], matches[1]);
    assert MatchService.Reciprocates(books, matches[0], matches[2]);
  }

  /** A proposal deactivates its initiating match, but createExchange does not
      check that match's flag: once the partner matches another of the
      proposer's books, the same initiating match proposes again, and its book
      goes into a second exchange. */
  lemma DeactivatedMatchProposesAgain()
    ensures var first := map[0 := BookMatch(1, 20, 0, true), 1 := BookMatch(2, 10, 0, true)];
      && MatchesWellFormed(SampleUsers(), SampleBooks(), first)
      && ProposeGuard(SampleUsers(), SampleBooks(), first, 2, 1, 0) == Ok(1)
      && var later := Deactivate(first, 0, 1)[2 := BookMatch(2, 11, 1, true)];
         && MatchesWellFormed(SampleUsers(), SampleBooks(), later)
         && ProposeGuard(SampleUsers(), SampleBooks(), later, 3, 1, 0) == Ok(2)
  {
    var books := SampleBooks();
    var first := map[0 := BookMatch(1, 20, 0, true), 1 := BookMatch(2, 10, 0, true)];
    var q := BookMatchRepository.ReciprocalOf(2, {10, 11});
    assert FindByOwner(books, 1) == {10, 11};
    assert !SelectedAt(first, q, 0) && SelectedAt(first, q, 1);
    assert FindUnique(first, q, 1) == NoRow;
    assert FindUnique(first, q, 2) == OneRow(1);
    var later := Deactivate(first, 0, 1)[2 := BookMatch(2, 11, 1, true)];
    assert later == map[0 := BookMatch(1, 20, 0, false), 1 := BookMatch(2, 10, 0, false), 2 := BookMatch(2, 11, 1, true)];
    assert !SelectedAt(later, q, 0) && !SelectedAt(later, q, 1) && SelectedAt(later, q, 2);
    assert FindUnique(later, q, 2) == NoRow;
    assert FindUnique(later, q, 3) == OneRow(2);
  }

  /** Deactivating matches keeps the match invariants. */
  lemma DeactivateKeepsInvariants(users: map<UserId, User>, books: map<BookId, Book>, matches: map<MatchId, BookMatch>, a: MatchId, b: MatchId)
    requires MatchesWellFormed(users, books, matches) && UniqueActiveMatches(matches)
    requires a in matches && b in matches
    ensures MatchesWellFormed(users, books, Deactivate(matches, a, b)) && UniqueActiveMatches(Deactivate(matches, a, b))
  {
    var once := matches[a := matches[a].(active := false)];
    MatchService.DeactivationKeepsInvariants(users, books, matches, a);
    MatchService.DeactivationKeepsInvariants(users, books, once, b);
  }

  /** A proposal saved under a fresh identifier, with its pair of matches
      deactivated, keeps the store consistent. */
  lemma CreateExchangeKeepsConsistent(users: map<UserId, User>, books: map<BookId, Book>, matches: map<MatchId, BookMatch>,
                                      exchanges: map<ExchangeId, Exchange>, reviews: map<ReviewId, Review>,
                                      nu: nat, nb: nat, nm: nat, ne: nat, nr: nat, userId: UserId, matchId: MatchId, rid: MatchId, now: Time,
                                      matches': map<MatchId, BookMatch>, exchanges': map<ExchangeId, Exchange>, ne': nat)
    requires Consistent(users, books, matches, exchanges, reviews, nu, nb, nm, ne, nr)
    requires ProposeGuard(users, books, matches, nm, userId, matchId) == Ok(rid)
    requires matches' == Deactivate(matches, matchId, rid)
    requires exchanges' == exchanges[ne := NewExchange(books, matches, matchId, rid, now)] && ne' == ne + 1
    ensures Consistent(users, books, matches', exchanges', reviews, nu, nb, nm, ne', nr)
  {
    var e := NewExchange(books, matches, matchId, rid, now);
    ProposalWellFormed(users, books, matches, nm, userId, matchId, now);
    ProposalCoherent(e.user1, e.user2, e.book1, e.book2, now);
    DeactivateKeepsInvariants(users, books, matches, matchId, rid);
    forall id | id in exchanges' ensures ExchangeWellFormed(users, books, exchanges'[id]) && Coherent(exchanges'[id]) {
      if id != ne {
        assert exchanges'[id] == exchanges[id];
      }
    }
  }

  /** Replacing a stored exchange by a coherent record of the same deal keeps
      the store consistent. */
  lemma ExchangeUpdateKeepsConsistent(users: map<UserId, User>, books: map<BookId, Book>, matches: map<MatchId, BookMatch>,
                                      exchanges: map<ExchangeId, Exchange>, reviews: map<ReviewId, Review>,
                                      nu: nat, nb: nat, nm: nat, ne: nat, nr: nat, id: ExchangeId, e: Exchange)
    requires Consistent(users, books, matches, exchanges, reviews, nu, nb, nm, ne, nr)
    requires id in exchanges && SameDeal(exchanges[id], e) && Coherent(e)
    ensures Consistent(users, books, matches, exchanges[id := e], reviews, nu, nb, nm, ne, nr)
  {
    assert ExchangeWellFormed(users, books, exchanges[id]);
  }

  /** createExchange(userId, matchId). */
  method CreateExchange(s: Store, userId: UserId, matchId: MatchId, now: Time) returns (r: Result<Saved<Exchange>>)
    requires s.Valid()
    modifies s`matches, s`exchanges, s`nextExchangeId
    ensures s.Valid()
    ensures var g := ProposeGuard(s.users, s.books, old(s.matches), s.nextMatchId, userId, matchId);
      g.Err? ==>
        (r == Err(g.error) && s.matches == old(s.matches)
         && s.exchanges == old(s.exchanges) && s.nextExchangeId == old(s.nextExchangeId))
    ensures var g := ProposeGuard(s.users, s.books, old(s.matches), s.nextMatchId, userId, matchId);
      g.Ok? ==>
        var id := old(s.nextExchangeId);
        var e := NewExchange(s.books, old(s.matches), matchId, g.value, now);
        && id !in old(s.exchanges)
        && s.exchanges == old(s.exchanges)[id := e]
        && s.nextExchangeId == id + 1
        && s.matches == Deactivate(old(s.matches), matchId, g.value)
        && r == Ok(Saved(id, e))
  {
    if matchId !in s.matches {
      return Err(ResourceNotFound);
    }
    var initiating := s.matches[matchId];
    if initiating.user != userId {
      return Err(BadRequest);
    }
    var reciprocal := FindReciprocalMatch(s.matches, s.nextMatchId, s.books[initiating.book].owner, FindByOwner(s.books, initiating.user));
    if reciprocal.NoRow? {
      return Err(BadRequest);
    }
    if reciprocal.SeveralRows? {
      return Err(IncorrectResultSize);
    }
    var rid := reciprocal.id;
    assert ProposeGuard(s.users, s.books, s.matches, s.nextMatchId, userId, matchId) == Ok(rid);
    var id := s.nextExchangeId;
    var e := NewExchange(s.books, s.matches, matchId, rid, now);
    CreateExchangeKeepsConsistent(s.users, s.books, s.matches, s.exchanges, s.reviews,
      s.nextUserId, s.nextBookId, s.nextMatchId, id, s.nextReviewId, userId, matchId, rid, now,
      Deactivate(s.matches, matchId, rid), s.exchanges[id := e], id + 1);
    SaveExchange(s, Deactivate(s.matches, matchId, rid), s.exchanges[id := e]);
    r := Ok(Saved(id, e));
  }

  /** The commit of createExchange: the deactivated pair of matches and the
      proposal under the next identifier. */
  method SaveExchange(s: Store, matches': map<MatchId, BookMatch>, exchanges': map<ExchangeId, Exchange>)
    requires Consistent(s.users, s.books, matches', exchanges', s.reviews,
                        s.nextUserId, s.nextBookId, s.nextMatchId, s.nextExchangeId + 1, s.nextReviewId)
    modifies s`matches, s`exchanges, s`nextExchangeId
    ensures s.Valid()
    ensures s.matches == matches' && s.exchanges == exchanges' && s.nextExchangeId == old(s.nextExchangeId) + 1
  {
    s.matches := matches';
    s.exchanges := exchanges';
    s.nextExchangeId := s.nextExchangeId + 1;
  }

  // ----- setMeetupDetails, confirmExchange, cancelExchange -----

  /** setMeetupDetails(userId, request): the guards and updates of
      ExchangeLifecycle.SetMeetup, applied to the stored exchange. */
  method SetMeetupDetails(s: Store, userId: UserId, exchangeId: ExchangeId, time: Time, location: string, now: Time) returns (r: Result<Saved<Exchange>>)
    requires s.Valid()
    modifies s`exchanges
    ensures s.Valid()
    ensures exchangeId !in old(s.exchanges) ==> r == Err(ResourceNotFound) && s.exchanges == old(s.exchanges)
    ensures exchangeId in old(s.exchanges) ==>
      match SetMeetup(old(s.exchanges)[exchangeId], userId, time, location, now)
      case Err(err) => r == Err(err) && s.exchanges == old(s.exchanges)
      case Ok(e) => r == Ok(Saved(exchangeId, e)) && s.exchanges == old(s.exchanges)[exchangeId := e]
  {
    if exchangeId !in s.exchanges {
      return Err(ResourceNotFound);
    }
    var e := s.exchanges[exchangeId];
    if !(e.user1 == userId || e.user2 == userId) {
      return Err(BadRequest);
    }
    if e.status != Proposed {
      return Err(BadRequest);
    }
    if time < now {
      return Err(BadRequest);
    }
    StepKeepsCoherent(e, ExchangeLifecycle.SetMeetupDetails(userId, time, location, now));
    e := e.(meetupDateTime := Some(time), meetupLocation := Some(location), status := MeetupArranged);
    ExchangeUpdateKeepsConsistent(s.users, s.books, s.matches, s.exchanges, s.reviews,
      s.nextUserId, s.nextBookId, s.nextMatchId, s.nextExchangeId, s.nextReviewId, exchangeId, e);
    s.exchanges := s.exchanges[exchangeId := e];
    r := Ok(Saved(exchangeId, e));
  }

  /** What completion does to the users: each participant counts one more
      exchange and gets the rank of the new count; nobody else changes. */
  function CountExchange(users: map<UserId, User>, u1: UserId, u2: UserId): (r: map<UserId, User>)
    requires u1 in users && u2 in users
    ensures r.Keys == users.Keys
    ensures u1 != u2 ==> r[u1] == CountedExchange(users[u1]) && r[u2] == CountedExchange(users[u2])
    ensures u1 == u2 ==> r[u1] == CountedTimes(users[u1], 2)
    ensures forall u :: u in users && u != u1 && u != u2 ==> r[u] == users[u]
    ensures forall u :: u in users ==> r[u] == users[u].(exchangeCount := r[u].exchangeCount, rank := r[u].rank)
  {
    var once := users[u1 := CountedExchange(users[u1])];
    assert CountedTimes(users[u1], 2) == CountedExchange(CountedExchange(users[u1])) by {
      assert CountedTimes(users[u1], 1) == CountedExchange(CountedTimes(users[u1], 0));
    }
    once[u2 := CountedExchange(once[u2])]
  }

  /** What completion does to the books: each traded book counts one more
      exchange and is no longer available; every other field and book stays. */
  function WithdrawBooks(books: map<BookId, Book>, b1: BookId, b2: BookId): (r: map<BookId, Book>)
    requires b1 in books && b2 in books
    ensures r.Keys == books.Keys
    ensures !r[b1].available && !r[b2].available
    ensures b1 != b2 ==>
      r[b1].exchangeCount == books[b1].exchangeCount + 1 && r[b2].exchangeCount == books[b2].exchangeCount + 1
    ensures b1 == b2 ==> r[b1].exchangeCount == books[b1].exchangeCount + 2
    ensures forall b :: b in books ==>
      r[b] == books[b].(exchangeCount := r[b].exchangeCount, available := r[b].available)
    ensures forall b :: b in books && b != b1 && b != b2 ==> r[b] == books[b]
  {
    var once := books[b1 := books[b1].(exchangeCount := books[b1].exchangeCount + 1, available := false)];
    once[b2 := once[b2].(exchangeCount := once[b2].exchangeCount + 1, available := false)]
  }

  /** Ranks stay those of the counts after a completion. */
  lemma CountExchangeKeepsRanks(users: map<UserId, User>, u1: UserId, u2: UserId)
    requires RanksConsistent(users) && u1 in users && u2 in users
    ensures RanksConsistent(CountExchange(users, u1, u2))
  {
    var r := CountExchange(users, u1, u2);
    forall u | u in r ensures 0 <= r[u].exchangeCount && r[u].rank == RankFor(r[u].exchangeCount) {
      if u1 == u2 && u == u1 {
        CountedTimesState(users[u1], 2);
      }
    }
  }

  /** A completion keeps every store invariant that mentions users or books. */
  lemma CompletionKeepsInvariants(users: map<UserId, User>, books: map<BookId, Book>, matches: map<MatchId, BookMatch>,
                                  exchanges: map<ExchangeId, Exchange>, reviews: map<ReviewId, Review>, nextReviewId: nat, e: Exchange)
    requires RanksConsistent(users) && RatingsConsistent(users, reviews, nextReviewId) && BooksOwned(users, books)
    requires MatchesWellFormed(users, books, matches) && ExchangesWellFormed(users, books, exchanges)
    requires ReviewsWellFormed(users, reviews) && ExchangeWellFormed(users, books, e)
    ensures var users' := CountExchange(users, e.user1, e.user2);
      var books' := WithdrawBooks(books, e.book1, e.book2);
      && RanksConsistent(users') && RatingsConsistent(users', reviews, nextReviewId)
      && BooksOwned(users', books') && MatchesWellFormed(users', books', matches)
      && ExchangesWellFormed(users', books', exchanges) && ReviewsWellFormed(users', reviews)
      && ExchangeWellFormed(users', books', e)
  {
    var users' := CountExchange(users, e.user1, e.user2);
    var books' := WithdrawBooks(books, e.book1, e.book2);
    CountExchangeKeepsRanks(users, e.user1, e.user2);
    assert OwnersKept(books, books');
    OwnersKeptPreservesMatches(users, books, books', matches);
    OwnersKeptPreservesExchanges(users, books, books', exchanges);
    forall id | id in exchanges ensures ExchangeWellFormed(users', books', exchanges[id]) {
      assert ExchangeWellFormed(users, books', exchanges[id]);
    }
  }

  /** A completed record stored in place of its predecessor, with the users
      and books as completion leaves them, keeps the store consistent. */
  lemma CompletionKeepsConsistent(users: map<UserId, User>, books: map<BookId, Book>, matches: map<MatchId, BookMatch>,
                                  exchanges: map<ExchangeId, Exchange>, reviews: map<ReviewId, Review>,
                                  nu: nat, nb: nat, nm: nat, ne: nat, nr: nat, id: ExchangeId, e: Exchange)
    requires Consistent(users, books, matches, exchanges, reviews, nu, nb, nm, ne, nr)
    requires id in exchanges && SameDeal(exchanges[id], e) && Coherent(e)
    ensures ExchangeWellFormed(users, books, e)
    ensures Consistent(CountExchange(users, e.user1, e.user2), WithdrawBooks(books, e.book1, e.book2),
                       matches, exchanges[id := e], reviews, nu, nb, nm, ne, nr)
  {
    assert ExchangeWellFormed(users, books, exchanges[id]);
    CompletionKeepsInvariants(users, books, matches, exchanges, reviews, nr, e);
  }

  /** completeExchange(exchange): the record becomes COMPLETED, both users
      count the exchange (incrementExchangeCount), both books count it and are
      withdrawn. */
  method CompleteExchange(s: Store, e: Exchange) returns (completed: Exchange)
    requires ExchangeWellFormed(s.users, s.books, e)
    modifies s`users, s`books
    ensures completed == e.(status := Completed)
    ensures s.users == CountExchange(old(s.users), e.user1, e.user2)
    ensures s.books == WithdrawBooks(old(s.books), e.book1, e.book2)
  {
    completed := e.(status := Completed);
    s.IncrementExchangeCount(e.user1);
    s.IncrementExchangeCount(e.user2);
    ghost var books := s.books;
    WithdrawBooksStepwise(books, e.book1, e.book2);
    s.books := s.books[e.book1 := s.books[e.book1].(exchangeCount := s.books[e.book1].exchangeCount + 1)];
    s.books := s.books[e.book2 := s.books[e.book2].(exchangeCount := s.books[e.book2].exchangeCount + 1)];
    s.books := s.books[e.book1 := s.books[e.book1].(available := false)];
    s.books := s.books[e.book2 := s.books[e.book2].(available := false)];
  }

  /** The four setters of completeExchange, one after the other, give the
      books WithdrawBooks describes. */
  lemma WithdrawBooksStepwise(books: map<BookId, Book>, b1: BookId, b2: BookId)
    requires b1 in books && b2 in books
    ensures var c1 := books[b1 := books[b1].(exchangeCount := books[b1].exchangeCount + 1)];
      var c2 := c1[b2 := c1[b2].(exchangeCount := c1[b2].exchangeCount + 1)];
      var a1 := c2[b1 := c2[b1].(available := false)];
      a1[b2 := a1[b2].(available := false)] == WithdrawBooks(books, b1, b2)
  {
  }

  /** confirmExchange(userId, exchangeId): the guards and flag update of
      ExchangeLifecycle.Confirm, applied to the stored exchange; when the
      confirmation completes the exchange, completeExchange's effects on the
      users and books, and otherwise no change to them. */
  method ConfirmExchange(s: Store, userId: UserId, exchangeId: ExchangeId) returns (r: Result<Saved<Exchange>>)
    requires s.Valid()
    modifies s`exchanges, s`users, s`books
    ensures s.Valid()
    ensures exchangeId !in old(s.exchanges) ==>
      r == Err(ResourceNotFound) && s.exchanges == old(s.exchanges) && s.users == old(s.users) && s.books == old(s.books)
    ensures exchangeId in old(s.exchanges) ==>
      var e := old(s.exchanges)[exchangeId];
      match Confirm(e, userId)
      case Err(err) => r == Err(err) && s.exchanges == old(s.exchanges) && s.users == old(s.users) && s.books == old(s.books)
      case Ok(e') =>
        && r == Ok(Saved(exchangeId, e'))
        && s.exchanges == old(s.exchanges)[exchangeId := e']
        && (e'.status == Completed ==>
              s.users == CountExchange(old(s.users), e.user1, e.user2)
              && s.books == WithdrawBooks(old(s.books), e.book1, e.book2))
        && (e'.status != Completed ==> s.users == old(s.users) && s.books == old(s.books))
  {
    if exchangeId !in s.exchanges {
      return Err(ResourceNotFound);
    }
    var e := s.exchanges[exchangeId];
    if !(e.user1 == userId || e.user2 == userId) {
      return Err(BadRequest);
    }
    if e.status != MeetupArranged {
      return Err(BadRequest);
    }
    StepKeepsCoherent(e, ExchangeLifecycle.ConfirmExchange(userId));
    var confirmed := if e.user1 == userId then e.(user1Confirmed := true) else e.(user2Confirmed := true);
    if confirmed.user1Confirmed && confirmed.user2Confirmed {
      CompletionKeepsConsistent(s.users, s.books, s.matches, s.exchanges, s.reviews,
        s.nextUserId, s.nextBookId, s.nextMatchId, s.nextExchangeId, s.nextReviewId, exchangeId, confirmed.(status := Completed));
      confirmed := SaveCompletion(s, exchangeId, confirmed);
    } else {
      ExchangeUpdateKeepsConsistent(s.users, s.books, s.matches, s.exchanges, s.reviews,
        s.nextUserId, s.nextBookId, s.nextMatchId, s.nextExchangeId, s.nextReviewId, exchangeId, confirmed);
      s.exchanges := s.exchanges[exchangeId := confirmed];
    }
    r := Ok(Saved(exchangeId, confirmed));
  }

  /** The completing branch of confirmExchange: completeExchange, then the
      exchange is saved. */
  method SaveCompletion(s: Store, exchangeId: ExchangeId, e: Exchange) returns (completed: Exchange)
    requires ExchangeWellFormed(s.users, s.books, e)
    requires Consistent(CountExchange(s.users, e.user1, e.user2), WithdrawBooks(s.books, e.book1, e.book2), s.matches,
                        s.exchanges[exchangeId := e.(status := Completed)], s.reviews,
                        s.nextUserId, s.nextBookId, s.nextMatchId, s.nextExchangeId, s.nextReviewId)
    modifies s`exchanges, s`users, s`books
    ensures s.Valid()
    ensures completed == e.(status := Completed)
    ensures s.exchanges == old(s.exchanges)[exchangeId := completed]
    ensures s.users == CountExchange(old(s.users), e.user1, e.user2)
    ensures s.books == WithdrawBooks(old(s.books), e.book1, e.book2)
  {
    completed := CompleteExchange(s, e);
    s.exchanges := s.exchanges[exchangeId := completed];
  }

  /** cancelExchange(userId, exchangeId): the guards and updates of
      ExchangeLifecycle.Cancel, applied to the stored exchange. The two matches
      it was created from stay inactive. */
  method CancelExchange(s: Store, userId: UserId, exchangeId: ExchangeId) returns (r: Result<Saved<Exchange>>)
    requires s.Valid()
    modifies s`exchanges
    ensures s.Valid()
    ensures exchangeId !in old(s.exchanges) ==> r == Err(ResourceNotFound) && s.exchanges == old(s.exchanges)
    ensures exchangeId in old(s.exchanges) ==>
      match Cancel(old(s.exchanges)[exchangeId], userId)
      case Err(err) => r == Err(err) && s.exchanges == old(s.exchanges)
      case Ok(e) => r == Ok(Saved(exchangeId, e)) && s.exchanges == old(s.exchanges)[exchangeId := e]
  {
    if exchangeId !in s.exchanges {
      return Err(ResourceNotFound);
    }
    var e := s.exchanges[exchangeId];
    if !(e.user1 == userId || e.user2 == userId) {
      return Err(BadRequest);
    }
    if e.status == Completed {
      return Err(BadRequest);
    }
    StepKeepsCoherent(e, ExchangeLifecycle.CancelExchange(userId));
    e := e.(status := Cancelled, user1Confirmed := false, user2Confirmed := false);
    ExchangeUpdateKeepsConsistent(s.users, s.books, s.matches, s.exchanges, s.reviews,
      s.nextUserId, s.nextBookId, s.nextMatchId, s.nextExchangeId, s.nextReviewId, exchangeId, e);
    s.exchanges := s.exchanges[exchangeId := e];
    r := Ok(Saved(exchangeId, e));
  }

  // ----- the read-only operations -----

  /** getExchangeDetails(userId, exchangeId): participants only. */
  function GetExchangeDetails(s: Store, userId: UserId, exchangeId: ExchangeId): (r: Result<Saved<Exchange>>)
    reads s
    ensures exchangeId !in s.exchanges ==> r == Err(ResourceNotFound)
    ensures exchangeId in s.exchanges && !IsUserPartOfExchange(userId, s.exchanges[exchangeId]) ==> r == Err(BadRequest)
    ensures r.Ok? <==> exchangeId in s.exchanges && IsUserPartOfExchange(userId, s.exchanges[exchangeId])
    ensures r.Ok? ==> r.value == Saved(exchangeId, s.exchanges[exchangeId])
  {
    if exchangeId !in s.exchanges then Err(ResourceNotFound)
    else
      match View(s.exchanges[exchangeId], userId)
      case Err(err) => Err(err)
      case Ok(e) => Ok(Saved(exchangeId, e))
  }

  /** getUserActiveExchanges(userId): the user's exchanges still in progress. */
  function GetUserActiveExchanges(s: Store, userId: UserId): (r: Result<set<ExchangeId>>)
    reads s
    ensures userId !in s.users <==> r == Err(ResourceNotFound)
    ensures r.Ok? ==> forall id :: id in r.value <==>
      id in s.exchanges && IsUserPartOfExchange(userId, s.exchanges[id])
      && (s.exchanges[id].status == Proposed || s.exchanges[id].status == MeetupArranged)
  {
    if userId !in s.users then Err(ResourceNotFound)
    else Ok(FindActiveExchangesByUser(s.exchanges, userId))
  }

  /** getUserExchangeHistory(userId): the user's completed exchanges. */
  function GetUserExchangeHistory(s: Store, userId: UserId): (r: Result<set<ExchangeId>>)
    reads s
    ensures userId !in s.users <==> r == Err(ResourceNotFound)
    ensures r.Ok? ==> forall id :: id in r.value <==>
      id in s.exchanges && IsUserPartOfExchange(userId, s.exchanges[id]) && s.exchanges[id].status == Completed
  {
    if userId !in s.users then Err(ResourceNotFound)
    else Ok(FindByUserAndStatus(s.exchanges, userId, Completed))
  }

  /** In a valid store every exchange in a user's history was confirmed by both
      participants, and none of it is in progress. */
  lemma HistoryIsConfirmed(s: Store, userId: UserId)
    requires s.Valid() && userId in s.users
    ensures forall id :: id in GetUserExchangeHistory(s, userId).value ==>
      s.exchanges[id].user1Confirmed && s.exchanges[id].user2Confirmed
    ensures GetUserExchangeHistory(s, userId).value * GetUserActiveExchanges(s, userId).value == {}
  {
    forall id | id in GetUserExchangeHistory(s, userId).value
      ensures s.exchanges[id].user1Confirmed && s.exchanges[id].user2Confirmed
    {
      assert Coherent(s.exchanges[id]);
    }
  }
}
