/** The queries of ExchangeRepository as selection functions over the exchange
    table: by participant, and by participant and status. */
module ExchangeRepository {
  import opened Domain
  import Users

  predicate Involves(e: Exchange, user: UserId)
  {
    e.user1 == user || e.user2 == user
  }

  /** findAllByUser(user): the exchanges in which the user is user1 or user2. */
  function FindAllByUser(exchanges: map<ExchangeId, Exchange>, user: UserId): (r: set<ExchangeId>)
    ensures forall id :: id in r <==> id in exchanges && (exchanges[id].user1 == user || exchanges[id].user2 == user)
  {
    set id | id in exchanges && Involves(exchanges[id], user)
  }

  /** findActiveExchangesByUser(user): the user's exchanges still in progress. */
  function FindActiveExchangesByUser(exchanges: map<ExchangeId, Exchange>, user: UserId): (r: set<ExchangeId>)
    ensures forall id :: id in r <==>
      (id in FindAllByUser(exchanges, user)
       && (exchanges[id].status == Proposed || exchanges[id].status == MeetupArranged))
  {
    set id | id in exchanges && Involves(exchanges[id], user)
      && (exchanges[id].status == Proposed || exchanges[id].status == MeetupArranged)
  }

  /** findByUserAndStatus(user, status). */
  function FindByUserAndStatus(exchanges: map<ExchangeId, Exchange>, user: UserId, status: ExchangeStatus): (r: set<ExchangeId>)
    ensures forall id :: id in r <==> id in FindAllByUser(exchanges, user) && exchanges[id].status == status
  {
    set id | id in exchanges && Involves(exchanges[id], user) && exchanges[id].status == status
  }

  /** The in-progress view and the completed history never share an exchange,
      both are part of the user's exchanges, and together with the cancelled
      ones they are all of them. */
  lemma ActiveAndHistoryPartition(exchanges: map<ExchangeId, Exchange>, user: UserId)
    ensures FindActiveExchangesByUser(exchanges, user) * FindByUserAndStatus(exchanges, user, Completed) == {}
    ensures FindActiveExchangesByUser(exchanges, user) <= FindAllByUser(exchanges, user)
    ensures FindByUserAndStatus(exchanges, user, Completed) <= FindAllByUser(exchanges, user)
    ensures FindAllByUser(exchanges, user)
         == FindActiveExchangesByUser(exchanges, user)
          + FindByUserAndStatus(exchanges, user, Completed)
          + FindByUserAndStatus(exchanges, user, Cancelled)
  {
  }

  /** User.getAllExchanges and findAllByUser describe the same exchanges. */
  lemma AllExchangesIsFindAllByUser(exchanges: map<ExchangeId, Exchange>, user: UserId)
    ensures Users.AllExchanges(exchanges, user) == FindAllByUser(exchanges, user)
  {
  }
}
