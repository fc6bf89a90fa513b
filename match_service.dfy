/** MatchService: recording a user's interest in a book, withdrawing it, listing
    a user's active interests, and the hasReciprocal flag of the match view. */
module MatchService {
  import opened Domain
  import opened Users
  import opened BookRepository
  import opened BookMatchRepository
  import opened Store

  /** The fields mapToMatchResponse fills in. */
  datatype MatchView = MatchView(id: MatchId, userId: UserId, username: string, active: bool, hasReciprocal: bool)

  /** Match `r` reciprocates match `m`: it is an active match of the owner of
      m's book on one of the books m's user owns. */
  predicate Reciprocates(books: map<BookId, Book>, m: BookMatch, r: BookMatch)
    requires m.book in books
  {
    r.active && r.user == books[m.book].owner && r.book in books && books[r.book].owner == m.user
  }

  /** hasReciprocal: whether the reciprocal query finds a match. The query is
      declared to return an Optional, so when it selects several matches the
      lookup raises instead of answering. */
  function HasReciprocal(books: map<BookId, Book>, matches: map<MatchId, BookMatch>, bound: nat, m: BookMatch): (r: Result<bool>)
    requires m.book in books
    ensures r.Err? ==> r.error == IncorrectResultSize
    ensures KeysBelow(matches, bound) ==>
      (r == Ok(false) <==> forall id :: id in matches ==> !Reciprocates(books, m, matches[id]))
    ensures KeysBelow(matches, bound) ==>
      (r.Err? <==> exists i, j :: i in matches && j in matches && i != j
                     && Reciprocates(books, m, matches[i]) && Reciprocates(books, m, matches[j]))
    ensures r == Ok(true) ==> exists id :: id in matches && Reciprocates(books, m, matches[id])
  {
    match FindReciprocalMatch(matches, bound, books[m.book].owner, FindByOwner(books, m.user))
    case NoRow => Ok(false)
    case OneRow(_) => Ok(true)
    case SeveralRows => Err(IncorrectResultSize)
  }

  /** mapToMatchResponse, which raises when the reciprocal lookup does. */
  function ViewOf(users: map<UserId, User>, books: map<BookId, Book>, matches: map<MatchId, BookMatch>, bound: nat, id: MatchId): Result<MatchView>
    requires id in matches && matches[id].user in users && matches[id].book in books
  {
    var m := matches[id];
    match HasReciprocal(books, matches, bound, m)
    case Ok(flag) => Ok(MatchView(id, m.user, users[m.user].username, m.active, flag))
    case Err(e) => Err(e)
  }

  /** The checks of createMatch in the order the source makes them; None when
      all pass. */
  function CreateMatchGuard(users: map<UserId, User>, books: map<BookId, Book>, matches: map<MatchId, BookMatch>, bound: nat, userId: UserId, bookId: BookId): (r: Option<Error>)
    ensures r.None? ==> userId in users && bookId in books && books[bookId].available && books[bookId].owner != userId
    ensures r.None? && KeysBelow(matches, bound) ==>
      forall id :: id in matches ==> !(matches[id].active && matches[id].user == userId && matches[id].book == bookId)
    ensures userId !in users || bookId !in books ==> r == Some(ResourceNotFound)
    ensures userId in users && bookId in books && !books[bookId].available ==> r == Some(IllegalState)
    ensures userId in users && bookId in books && books[bookId].owner == userId ==> r == Some(IllegalState)
    ensures userId in users && bookId in books && books[bookId].available && books[bookId].owner != userId ==>
      match FindByUserAndInterestedInBookAndActiveTrue(matches, bound, userId, bookId)
      case NoRow => r.None?
      case OneRow(_) => r == Some(IllegalState)
      case SeveralRows => r == Some(IncorrectResultSize)
  {
    if userId !in users then Some(ResourceNotFound)
    else if bookId !in books then Some(ResourceNotFound)
    else if !books[bookId].available then Some(IllegalState)
    else if books[bookId].owner == userId then Some(IllegalState)
    else
      match FindByUserAndInterestedInBookAndActiveTrue(matches, bound, userId, bookId)
      case NoRow => None
      case OneRow(_) => Some(IllegalState)
      case SeveralRows => Some(IncorrectResultSize)
  }

  /** In a valid store createMatch's duplicate check never raises: the only
      refusals are the service's own. */
  lemma CreateMatchGuardNeverRaises(s: Store, userId: UserId, bookId: BookId)
    requires s.Valid()
    ensures CreateMatchGuard(s.users, s.books, s.matches, s.nextMatchId, userId, bookId) != Some(IncorrectResultSize)
  {
    PairQueryNeverRaises(s.matches, s.nextMatchId, userId, bookId);
  }

  /** A match created after the checks pass keeps every match well formed and
      at most one active match per (user, book) pair. */
  lemma CreateMatchKeepsInvariants(users: map<UserId, User>, books: map<BookId, Book>, matches: map<MatchId, BookMatch>, bound: nat, userId: UserId, bookId: BookId, now: Time)
    requires MatchesWellFormed(users, books, matches) && UniqueActiveMatches(matches) && KeysBelow(matches, bound)
    requires CreateMatchGuard(users, books, matches, bound, userId, bookId).None?
    ensures var books' := books[bookId := books[bookId].(matchCount := books[bookId].matchCount + 1)];
      var matches' := matches[bound := BookMatch(userId, bookId, now, true)];
      MatchesWellFormed(users, books', matches') && UniqueActiveMatches(matches') && KeysBelow(matches', bound + 1)
  {
    var matches' := matches[bound := BookMatch(userId, bookId, now, true)];
    forall i, j | i in matches' && j in matches' && i != j && matches'[i].active && matches'[j].active
        && matches'[i].user == matches'[j].user
      ensures matches'[i].book != matches'[j].book
    {
      if i == bound {
        assert matches'[j] == matches[j];
      } else if j == bound {
        assert matches'[i] == matches[i];
      }
    }
  }

  /** A match created after the checks pass, with the book's counter raised,
      keeps the store consistent. */
  lemma NewMatchKeepsConsistent(users: map<UserId, User>, books: map<BookId, Book>, matches: map<MatchId, BookMatch>,
                                exchanges: map<ExchangeId, Exchange>, reviews: map<ReviewId, Review>,
                                nu: nat, nb: nat, nm: nat, ne: nat, nr: nat, userId: UserId, bookId: BookId, now: Time,
                                books': map<BookId, Book>, matches': map<MatchId, BookMatch>, nm': nat)
    requires Consistent(users, books, matches, exchanges, reviews, nu, nb, nm, ne, nr)
    requires CreateMatchGuard(users, books, matches, nm, userId, bookId).None?
    requires books' == books[bookId := books[bookId].(matchCount := books[bookId].matchCount + 1)]
    requires matches' == matches[nm := BookMatch(userId, bookId, now, true)] && nm' == nm + 1
    ensures Consistent(users, books', matches', exchanges, reviews, nu, nb, nm', ne, nr)
  {
    CreateMatchKeepsInvariants(users, books, matches, nm, userId, bookId, now);
    OwnersKeptPreservesExchanges(users, books, books', exchanges);
  }

  /** createMatch(userId, bookId): after the checks, a new active match of the
      user on the book, and one more on the book's match counter. The response
      is built inside the transaction, so when its reciprocal lookup raises the
      whole call is rolled back. */
  method CreateMatch(s: Store, userId: UserId, bookId: BookId, now: Time) returns (r: Result<MatchView>)
    requires s.Valid()
    modifies s`matches, s`nextMatchId, s`books
    ensures s.Valid()
    ensures var g := CreateMatchGuard(old(s.users), old(s.books), old(s.matches), old(s.nextMatchId), userId, bookId);
      g.Some? ==> r == Err(g.value) && s.matches == old(s.matches) && s.books == old(s.books)
                  && s.nextMatchId == old(s.nextMatchId)
    ensures var g := CreateMatchGuard(old(s.users), old(s.books), old(s.matches), old(s.nextMatchId), userId, bookId);
      g.None? ==>
        && old(s.nextMatchId) !in old(s.matches)
        && r == NewMatchView(s.users, old(s.books), old(s.matches), old(s.nextMatchId), userId, bookId, now)
        && (r.Err? ==> s.matches == old(s.matches) && s.books == old(s.books) && s.nextMatchId == old(s.nextMatchId))
        && (r.Ok? ==>
              && (s.books, s.matches) == WithNewMatch(old(s.books), old(s.matches), old(s.nextMatchId), userId, bookId, now)
              && s.nextMatchId == old(s.nextMatchId) + 1)
  {
    if userId !in s.users {
      return Err(ResourceNotFound);
    }
    if bookId !in s.books {
      return Err(ResourceNotFound);
    }
    var book := s.books[bookId];
    if !book.available {
      return Err(IllegalState);
    }
    if book.owner == userId {
      return Err(IllegalState);
    }
    var existing := FindByUserAndInterestedInBookAndActiveTrue(s.matches, s.nextMatchId, userId, bookId);
    if existing.OneRow? {
      return Err(IllegalState);
    }
    if existing.SeveralRows? {
      return Err(IncorrectResultSize);
    }
    assert CreateMatchGuard(s.users, s.books, s.matches, s.nextMatchId, userId, bookId) == None;
    var id := s.nextMatchId;
    var t := WithNewMatch(s.books, s.matches, id, userId, bookId, now);
    r := NewMatchView(s.users, s.books, s.matches, id, userId, bookId, now);
    if r.Err? {
      return;
    }
    NewMatchKeepsConsistent(s.users, s.books, s.matches, s.exchanges, s.reviews,
      s.nextUserId, s.nextBookId, id, s.nextExchangeId, s.nextReviewId, userId, bookId, now,
      t.0, t.1, id + 1);
    SaveMatch(s, t.0, t.1);
  }

  /** The tables createMatch saves: the new active match under the next
      identifier, and one more on the book's match counter. */
  function WithNewMatch(books: map<BookId, Book>, matches: map<MatchId, BookMatch>, bound: nat, userId: UserId, bookId: BookId, now: Time): (r: (map<BookId, Book>, map<MatchId, BookMatch>))
    requires bookId in books
    ensures r.0 == books[bookId := books[bookId].(matchCount := books[bookId].matchCount + 1)]
    ensures r.1 == matches[bound := BookMatch(userId, bookId, now, true)]
  {
    (books[bookId := books[bookId].(matchCount := books[bookId].matchCount + 1)],
     matches[bound := BookMatch(userId, bookId, now, true)])
  }

  /** The response createMatch builds for the new match, on the new tables. */
  function NewMatchView(users: map<UserId, User>, books: map<BookId, Book>, matches: map<MatchId, BookMatch>, bound: nat, userId: UserId, bookId: BookId, now: Time): Result<MatchView>
    requires userId in users && bookId in books
  {
    var t := WithNewMatch(books, matches, bound, userId, bookId, now);
    ViewOf(users, t.0, t.1, bound + 1, bound)
  }

  /** The commit of createMatch: the new tables and the next identifier. */
  method SaveMatch(s: Store, books': map<BookId, Book>, matches': map<MatchId, BookMatch>)
    requires Consistent(s.users, books', matches', s.exchanges, s.reviews,
                        s.nextUserId, s.nextBookId, s.nextMatchId + 1, s.nextExchangeId, s.nextReviewId)
    modifies s`matches, s`nextMatchId, s`books
    ensures s.Valid()
    ensures s.books == books' && s.matches == matches' && s.nextMatchId == old(s.nextMatchId) + 1
  {
    s.books := books';
    s.matches := matches';
    s.nextMatchId := s.nextMatchId + 1;
  }

  /** getUserMatches(userId): the user's active matches, each with its
      hasReciprocal flag; the listing raises when any of the lookups does. */
  function GetUserMatches(s: Store, userId: UserId): (r: Result<map<MatchId, bool>>)
    reads s
    requires s.Valid()
    ensures userId !in s.users ==> r == Err(ResourceNotFound)
    ensures userId in s.users ==>
      (r.Err? <==> exists id :: id in s.matches && s.matches[id].user == userId && s.matches[id].active
                     && HasReciprocal(s.books, s.matches, s.nextMatchId, s.matches[id]).Err?)
    ensures userId in s.users && r.Err? ==> r.error == IncorrectResultSize
    ensures r.Ok? ==> forall id :: id in r.value <==> id in s.matches && s.matches[id].user == userId && s.matches[id].active
    ensures r.Ok? ==> forall id :: id in r.value ==> Ok(r.value[id]) == HasReciprocal(s.books, s.matches, s.nextMatchId, s.matches[id])
  {
    if userId !in s.users then Err(ResourceNotFound)
    else
      var active := FindByUserAndActiveTrue(s.matches, userId);
      if exists id :: id in active && HasReciprocal(s.books, s.matches, s.nextMatchId, s.matches[id]).Err? then
        Err(IncorrectResultSize)
      else
        Ok(map id | id in active :: HasReciprocal(s.books, s.matches, s.nextMatchId, s.matches[id]).value)
  }

  /** Withdrawing a match keeps every match well formed and the active pairs unique. */
  lemma DeactivationKeepsInvariants(users: map<UserId, User>, books: map<BookId, Book>, matches: map<MatchId, BookMatch>, id: MatchId)
    requires MatchesWellFormed(users, books, matches) && UniqueActiveMatches(matches) && id in matches
    ensures var matches' := matches[id := matches[id].(active := false)];
      MatchesWellFormed(users, books, matches') && UniqueActiveMatches(matches')
  {
  }

  /** cancelMatch(userId, matchId): the match's creator marks it inactive; an
      inactive match may be cancelled again. Nothing else changes. */
  method CancelMatch(s: Store, userId: UserId, matchId: MatchId) returns (r: Outcome)
    requires s.Valid()
    modifies s`matches
    ensures s.Valid()
    ensures matchId !in old(s.matches) ==> r == Fail(ResourceNotFound) && s.matches == old(s.matches)
    ensures matchId in old(s.matches) && old(s.matches)[matchId].user != userId ==>
      r == Fail(IllegalState) && s.matches == old(s.matches)
    ensures matchId in old(s.matches) && old(s.matches)[matchId].user == userId ==>
      r == Done && s.matches == old(s.matches)[matchId := old(s.matches)[matchId].(active := false)]
  {
    if matchId !in s.matches {
      return Fail(ResourceNotFound);
    }
    var m := s.matches[matchId];
    if m.user != userId {
      return Fail(IllegalState);
    }
    DeactivationKeepsInvariants(s.users, s.books, s.matches, matchId);
    s.matches := s.matches[matchId := m.(active := false)];
    r := Done;
  }

  // ----- what the listing sees after each operation -----

  /** A new match shows up in its creator's active list, and nothing else does. */
  lemma NewMatchIsListed(matches: map<MatchId, BookMatch>, id: MatchId, userId: UserId, bookId: BookId, now: Time)
    requires id !in matches
    ensures FindByUserAndActiveTrue(matches[id := BookMatch(userId, bookId, now, true)], userId)
         == FindByUserAndActiveTrue(matches, userId) + {id}
  {
  }

  /** A cancelled match leaves its creator's active list, and nothing else does. */
  lemma CancelledMatchIsUnlisted(matches: map<MatchId, BookMatch>, id: MatchId)
    requires id in matches
    ensures FindByUserAndActiveTrue(matches[id := matches[id].(active := false)], matches[id].user)
         == FindByUserAndActiveTrue(matches, matches[id].user) - {id}
  {
  }
}
