/** The queries of BookMatchRepository as selection functions over the match
    table. A query of the source that returns an Optional is modelled as a scan
    in identifier order that yields no row, the one selected row, or the error
    Spring Data raises when several rows are selected; a query that returns a
    List yields the set of matching identifiers. */
module BookMatchRepository {
  import opened Domain

  /** The two single-row queries: findByUserAndInterestedInBookAndActiveTrue and
      findReciprocalMatch. */
  datatype MatchQuery =
    | ActiveOfUserOnBook(user: UserId, book: BookId)
    | ReciprocalOf(bookOwner: UserId, userBooks: set<BookId>)

  /** The WHERE clause of each single-row query; both require an active match. */
  predicate Selects(q: MatchQuery, m: BookMatch)
  {
    && m.active
    && match q
       case ActiveOfUserOnBook(u, b) => m.user == u && m.book == b
       case ReciprocalOf(owner, books) => m.user == owner && m.book in books
  }

  predicate SelectedAt(matches: map<MatchId, BookMatch>, q: MatchQuery, id: MatchId)
  {
    id in matches && Selects(q, matches[id])
  }

  /** What a repository method declared to return an Optional yields: no row,
      the one selected row, or, when the query selects several rows, Spring
      Data's IncorrectResultSizeDataAccessException. */
  datatype SingleResult = NoRow | OneRow(id: MatchId) | SeveralRows

  /** The single-result reading of a query over the identifiers below `bound`. */
  function FindUnique(matches: map<MatchId, BookMatch>, q: MatchQuery, bound: nat): (r: SingleResult)
    ensures r.NoRow? <==> forall id: nat :: id < bound ==> !SelectedAt(matches, q, id)
    ensures r.OneRow? ==> r.id < bound && SelectedAt(matches, q, r.id)
    ensures r.OneRow? ==> forall id: nat :: id < bound && id != r.id ==> !SelectedAt(matches, q, id)
    ensures r.SeveralRows? <==>
      exists i: nat, j: nat :: i < j < bound && SelectedAt(matches, q, i) && SelectedAt(matches, q, j)
    decreases bound
  {
    if bound == 0 then NoRow
    else
      var prev := FindUnique(matches, q, bound - 1);
      if !SelectedAt(matches, q, bound - 1) then prev
      else
        match prev
        case NoRow => OneRow(bound - 1)
        case OneRow(k) =>
          assert k < bound - 1 && SelectedAt(matches, q, k) && SelectedAt(matches, q, bound - 1);
          SeveralRows
        case SeveralRows => SeveralRows
  }

  /** The scan read over the whole table: when every identifier lies below
      `bound`, the scan's three answers say how many stored matches the query
      selects. */
  lemma FindUniqueOverTable(matches: map<MatchId, BookMatch>, q: MatchQuery, bound: nat)
    ensures var r := FindUnique(matches, q, bound);
      KeysBelow(matches, bound) ==>
      && (r.NoRow? <==> forall id :: id in matches ==> !Selects(q, matches[id]))
      && (r.OneRow? ==> forall id :: id in matches && id != r.id ==> !Selects(q, matches[id]))
      && (r.SeveralRows? <==>
            exists i, j :: i in matches && j in matches && i != j && Selects(q, matches[i]) && Selects(q, matches[j]))
  {
    var r := FindUnique(matches, q, bound);
    if !KeysBelow(matches, bound) {
      return;
    }
    if r.NoRow? {
      forall id | id in matches ensures !Selects(q, matches[id]) {
        assert !SelectedAt(matches, q, id);
      }
    }
    if r.OneRow? {
      forall id | id in matches && id != r.id ensures !Selects(q, matches[id]) {
        assert !SelectedAt(matches, q, id);
      }
    }
    if r.SeveralRows? {
      var i: nat, j: nat :| i < j < bound && SelectedAt(matches, q, i) && SelectedAt(matches, q, j);
      assert i in matches && j in matches && i != j && Selects(q, matches[i]) && Selects(q, matches[j]);
    }
    if exists i, j :: i in matches && j in matches && i != j && Selects(q, matches[i]) && Selects(q, matches[j]) {
      var i, j :| i in matches && j in matches && i != j && Selects(q, matches[i]) && Selects(q, matches[j]);
      assert SelectedAt(matches, q, i) && SelectedAt(matches, q, j);
      if i < j {
        assert i < j < bound;
      } else {
        assert j < i < bound;
      }
    }
  }

  /** Two tables on which the query selects the same identifiers below `bound`
      give the same answer. */
  lemma {:induction false} FindUniqueAgree(m1: map<MatchId, BookMatch>, m2: map<MatchId, BookMatch>, q: MatchQuery, bound: nat)
    requires forall id: nat :: id < bound ==> (SelectedAt(m1, q, id) <==> SelectedAt(m2, q, id))
    ensures FindUnique(m1, q, bound) == FindUnique(m2, q, bound)
    decreases bound
  {
    if bound > 0 {
      FindUniqueAgree(m1, m2, q, bound - 1);
    }
  }

  /** findReciprocalMatch(bookOwner, userBooks): an active match held by
      `bookOwner` on one of `userBooks`. The query may select several rows, and
      then the Optional-returning method raises. `bound` is the next identifier
      the table would hand out. */
  function FindReciprocalMatch(matches: map<MatchId, BookMatch>, bound: nat, bookOwner: UserId, userBooks: set<BookId>): (r: SingleResult)
    ensures r.OneRow? ==> var m := r.id;
      m in matches && matches[m].active && matches[m].user == bookOwner && matches[m].book in userBooks
    ensures KeysBelow(matches, bound) ==>
      (r.NoRow? <==> forall id :: id in matches ==>
         !(matches[id].active && matches[id].user == bookOwner && matches[id].book in userBooks))
    ensures KeysBelow(matches, bound) && r.OneRow? ==>
      forall id :: id in matches && id != r.id ==>
        !(matches[id].active && matches[id].user == bookOwner && matches[id].book in userBooks)
    ensures KeysBelow(matches, bound) ==>
      (r.SeveralRows? <==>
         exists i, j :: i in matches && j in matches && i != j
           && matches[i].active && matches[i].user == bookOwner && matches[i].book in userBooks
           && matches[j].active && matches[j].user == bookOwner && matches[j].book in userBooks)
  {
    FindUniqueOverTable(matches, ReciprocalOf(bookOwner, userBooks), bound);
    FindUnique(matches, ReciprocalOf(bookOwner, userBooks), bound)
  }

  /** findByUserAndInterestedInBookAndActiveTrue(user, book). */
  function FindByUserAndInterestedInBookAndActiveTrue(matches: map<MatchId, BookMatch>, bound: nat, user: UserId, book: BookId): (r: SingleResult)
    ensures r.OneRow? ==> var m := r.id;
      m in matches && matches[m].active && matches[m].user == user && matches[m].book == book
    ensures KeysBelow(matches, bound) ==>
      (r.NoRow? <==> forall id :: id in matches ==>
         !(matches[id].active && matches[id].user == user && matches[id].book == book))
    ensures KeysBelow(matches, bound) ==>
      (r.SeveralRows? <==>
         exists i, j :: i in matches && j in matches && i != j
           && matches[i].active && matches[i].user == user && matches[i].book == book
           && matches[j].active && matches[j].user == user && matches[j].book == book)
  {
    FindUniqueOverTable(matches, ActiveOfUserOnBook(user, book), bound);
    FindUnique(matches, ActiveOfUserOnBook(user, book), bound)
  }

  /** findByUserAndActiveTrue(user): the user's active matches. */
  function FindByUserAndActiveTrue(matches: map<MatchId, BookMatch>, user: UserId): (r: set<MatchId>)
    ensures forall id :: id in r <==> id in matches && matches[id].user == user && matches[id].active
  {
    set id | id in matches && matches[id].user == user && matches[id].active
  }

  /** findByInterestedInBookAndActiveTrue(book): the active matches on a book. */
  function FindByInterestedInBookAndActiveTrue(matches: map<MatchId, BookMatch>, book: BookId): (r: set<MatchId>)
    ensures forall id :: id in r <==> id in matches && matches[id].book == book && matches[id].active
  {
    set id | id in matches && matches[id].book == book && matches[id].active
  }

  /** At most one active match exists for each (user, book) pair. */
  ghost predicate UniqueActiveMatches(matches: map<MatchId, BookMatch>)
  {
    forall i, j ::
      (i in matches && j in matches && i != j && matches[i].active && matches[j].active
       && matches[i].user == matches[j].user) ==> matches[i].book != matches[j].book
  }

  /** When the pairs are unique, the single-row query finds the one active
      match of the user on the book, whatever its identifier. */
  lemma FindByUserAndBookIsTheActiveMatch(matches: map<MatchId, BookMatch>, bound: nat, id: MatchId)
    requires UniqueActiveMatches(matches) && KeysBelow(matches, bound)
    requires id in matches && matches[id].active
    ensures FindByUserAndInterestedInBookAndActiveTrue(matches, bound, matches[id].user, matches[id].book) == OneRow(id)
  {
  }

  /** When the pairs are unique, the single-row query of createMatch never
      selects several rows, so it never raises. */
  lemma PairQueryNeverRaises(matches: map<MatchId, BookMatch>, bound: nat, user: UserId, book: BookId)
    requires UniqueActiveMatches(matches) && KeysBelow(matches, bound)
    ensures !FindByUserAndInterestedInBookAndActiveTrue(matches, bound, user, book).SeveralRows?
  {
  }

  /** The user's active list and the book's active list share exactly the match
      the pair query finds, and nothing when it finds none. */
  lemma ActiveListsMeetAtThePair(matches: map<MatchId, BookMatch>, bound: nat, user: UserId, book: BookId)
    requires UniqueActiveMatches(matches) && KeysBelow(matches, bound)
    ensures var both := FindByUserAndActiveTrue(matches, user) * FindByInterestedInBookAndActiveTrue(matches, book);
      match FindByUserAndInterestedInBookAndActiveTrue(matches, bound, user, book)
      case OneRow(id) => both == {id}
      case NoRow => both == {}
      case SeveralRows => false
  {
    PairQueryNeverRaises(matches, bound, user, book);
  }
}
