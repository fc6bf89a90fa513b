/** Shared vocabulary of the book-swap backend: identifiers, the exception
    kinds the services raise, status enumerations and the persistent records.
    Object references between the JPA entities are replaced by identifiers. */
module Domain {

  type UserId = nat
  type BookId = nat
  type MatchId = nat
  type ExchangeId = nat
  type ReviewId = nat
  type ChatId = nat

  /** Clock readings (LocalDateTime) become plain integers supplied by the caller. */
  type Time = int

  datatype Option<T> = None | Some(value: T)

  /** ResourceNotFoundException, BadRequestException and IllegalStateException,
      which the services throw themselves, and Spring Data's
      IncorrectResultSizeDataAccessException, which a repository method
      declared to return an Optional raises when its query selects several rows,
      and InvalidDataAccessApiUsageException, into which the repository's
      exception translation turns an IllegalStateException raised inside save
      (an entity's persist hook). */
  datatype Error = ResourceNotFound | BadRequest | IllegalState | IncorrectResultSize | InvalidDataAccessApiUsage

  /** The value an operation hands back, or the exception it raises. */
  datatype Result<T> = Ok(value: T) | Err(error: Error)

  /** Outcome of an operation that returns nothing (a Java `void` method). */
  datatype Outcome = Done | Fail(error: Error)

  /** A record as a service hands it back after saving: its identifier and its
      stored fields (the response mappers' projections are not modelled). */
  datatype Saved<T> = Saved(id: nat, record: T)

  datatype Rank = Bronze | Silver | Gold

  datatype ExchangeStatus = Proposed | MeetupArranged | Completed | Cancelled

  /** A user as far as the trade workflow sees it; the profile and security fields
      are not modelled. The average rating is kept as the integer sum and the
      number of received ratings (see Users.AverageRating). */
  datatype User = User(
    username: string,
    exchangeCount: int,
    rank: Rank,
    ratingSum: int,
    ratingCount: nat)

  datatype Book = Book(
    title: string,
    author: string,
    description: string,
    pictureUrl: string,
    likeCount: int,
    matchCount: int,
    exchangeCount: int,
    available: bool,
    owner: UserId)

  /** A directed interest edge: `user` is interested in `book`. */
  datatype BookMatch = BookMatch(
    user: UserId,
    book: BookId,
    createdAt: Time,
    active: bool)

  datatype Exchange = Exchange(
    user1: UserId,
    user2: UserId,
    book1: BookId,
    book2: BookId,
    status: ExchangeStatus,
    proposedAt: Time,
    meetupDateTime: Option<Time>,
    meetupLocation: Option<string>,
    user1Confirmed: bool,
    user2Confirmed: bool)

  datatype Review = Review(
    reviewer: UserId,
    reviewed: UserId,
    rating: int,
    comment: string,
    createdAt: Time)

  /** Only the two participants of a chat matter here (for User.getAllChats). */
  datatype Chat = Chat(user1: UserId, user2: UserId)

  /** Every key of `m` lies below `bound`: identifiers are handed out in increasing order. */
  ghost predicate KeysBelow<T>(m: map<nat, T>, bound: nat)
  {
    forall k :: k in m ==> k < bound
  }
}
