/** BookService: the catalogue lookups and the three edits of a book. */
module BookService {
  import opened Domain
  import opened BookRepository
  import opened BookSearchLike
  import opened Store

  /** The book createBook saves: the request's four fields, the caller as owner,
      and the entity's defaults (available, all counters 0). */
  function NewBook(title: string, author: string, description: string, pictureUrl: string, owner: UserId): (b: Book)
    ensures b.title == title && b.author == author && b.description == description && b.pictureUrl == pictureUrl
    ensures b.owner == owner && b.available
    ensures b.likeCount == 0 && b.matchCount == 0 && b.exchangeCount == 0
  {
    Book(title, author, description, pictureUrl, 0, 0, 0, true, owner)
  }

  /** The book updateBook saves: the request's four fields replace the old ones;
      owner, counters and availability stay. */
  function Edited(b: Book, title: string, author: string, description: string, pictureUrl: string): (r: Book)
    ensures r.title == title && r.author == author && r.description == description && r.pictureUrl == pictureUrl
    ensures r.owner == b.owner && r.available == b.available
    ensures r.likeCount == b.likeCount && r.matchCount == b.matchCount && r.exchangeCount == b.exchangeCount
  {
    b.(title := title, author := author, description := description, pictureUrl := pictureUrl)
  }

  /** Editing twice keeps only the second edit. */
  lemma EditsDoNotAccumulate(b: Book, t1: string, a1: string, d1: string, p1: string, t2: string, a2: string, d2: string, p2: string)
    ensures Edited(Edited(b, t1, a1, d1, p1), t2, a2, d2, p2) == Edited(b, t2, a2, d2, p2)
  {
  }

  /** The book toggleBookAvailability saves. */
  function Toggled(b: Book): (r: Book)
    ensures r.available == !b.available
    ensures r == b.(available := r.available)
  {
    b.(available := !b.available)
  }

  /** Two toggles restore the book. */
  lemma ToggleTwiceRestores(b: Book)
    ensures Toggled(Toggled(b)) == b
  {
  }

  /** Changing one book without touching its owner keeps the store consistent. */
  lemma BookEditKeepsConsistent(users: map<UserId, User>, books: map<BookId, Book>, matches: map<MatchId, BookMatch>,
                                exchanges: map<ExchangeId, Exchange>, reviews: map<ReviewId, Review>,
                                nu: nat, nb: nat, nm: nat, ne: nat, nr: nat, id: BookId, b: Book)
    requires Consistent(users, books, matches, exchanges, reviews, nu, nb, nm, ne, nr)
    requires id in books && b.owner == books[id].owner
    ensures Consistent(users, books[id := b], matches, exchanges, reviews, nu, nb, nm, ne, nr)
  {
    assert OwnersKept(books, books[id := b]);
    OwnersKeptPreservesMatches(users, books, books[id := b], matches);
    OwnersKeptPreservesExchanges(users, books, books[id := b], exchanges);
  }

  /** Adding a book of a stored user under the next identifier keeps the store
      consistent. */
  lemma NewBookKeepsConsistent(users: map<UserId, User>, books: map<BookId, Book>, matches: map<MatchId, BookMatch>,
                               exchanges: map<ExchangeId, Exchange>, reviews: map<ReviewId, Review>,
                               nu: nat, nb: nat, nm: nat, ne: nat, nr: nat, b: Book)
    requires Consistent(users, books, matches, exchanges, reviews, nu, nb, nm, ne, nr)
    requires b.owner in users
    ensures Consistent(users, books[nb := b], matches, exchanges, reviews, nu, nb + 1, nm, ne, nr)
  {
    assert OwnersKept(books, books[nb := b]);
    OwnersKeptPreservesMatches(users, books, books[nb := b], matches);
    OwnersKeptPreservesExchanges(users, books, books[nb := b], exchanges);
  }

  /** getAvailableBooks(userId). */
  function GetAvailableBooks(s: Store, userId: UserId): (r: set<BookId>)
    reads s
    ensures forall id :: id in r <==> id in s.books && s.books[id].available && s.books[id].owner != userId
  {
    FindAvailableBooksForUser(s.books, userId)
  }

  /** searchBooks(userId, searchTerm): the repository's LIKE query as it is
      written. For a term without '%' and '_' it is the case-insensitive
      substring search on title or author. */
  function SearchBooks(s: Store, userId: UserId, term: string): (r: set<BookId>)
    reads s
    ensures r <= GetAvailableBooks(s, userId)
    ensures forall id :: id in r <==> id in GetAvailableBooks(s, userId) && TitleOrAuthorLike(s.books[id], term)
    ensures FreeOfWildcards(term) ==>
      forall id :: id in r <==> id in GetAvailableBooks(s, userId) && TitleOrAuthorContains(s.books[id], term)
  {
    SearchAvailableBooksAsWritten(s.books, userId, term)
  }

  /** getBookById(id). */
  function GetBookById(s: Store, id: BookId): (r: Result<Saved<Book>>)
    reads s
    ensures id !in s.books <==> r == Err(ResourceNotFound)
    ensures r.Ok? ==> r.value == Saved(id, s.books[id])
  {
    if id in s.books then Ok(Saved(id, s.books[id])) else Err(ResourceNotFound)
  }

  /** createBook(userId, request). */
  method CreateBook(s: Store, userId: UserId, title: string, author: string, description: string, pictureUrl: string)
    returns (r: Result<Saved<Book>>)
    requires s.Valid()
    modifies s`books, s`nextBookId
    ensures s.Valid()
    ensures userId !in s.users ==>
      r == Err(ResourceNotFound) && s.books == old(s.books) && s.nextBookId == old(s.nextBookId)
    ensures userId in s.users ==>
      var id := old(s.nextBookId);
      var b := NewBook(title, author, description, pictureUrl, userId);
      && id !in old(s.books)
      && s.books == old(s.books)[id := b]
      && s.nextBookId == id + 1
      && r == Ok(Saved(id, b))
  {
    if userId !in s.users {
      return Err(ResourceNotFound);
    }
    var b := NewBook(title, author, description, pictureUrl, userId);
    NewBookKeepsConsistent(s.users, s.books, s.matches, s.exchanges, s.reviews,
      s.nextUserId, s.nextBookId, s.nextMatchId, s.nextExchangeId, s.nextReviewId, b);
    var id := s.nextBookId;
    s.books := s.books[id := b];
    s.nextBookId := s.nextBookId + 1;
    r := Ok(Saved(id, b));
  }

  /** updateBook(bookId, request): anybody may edit any book; only the four
      request fields change. */
  method UpdateBook(s: Store, bookId: BookId, title: string, author: string, description: string, pictureUrl: string)
    returns (r: Result<Saved<Book>>)
    requires s.Valid()
    modifies s`books
    ensures s.Valid()
    ensures bookId !in old(s.books) ==> r == Err(ResourceNotFound) && s.books == old(s.books)
    ensures bookId in old(s.books) ==>
      var b := Edited(old(s.books)[bookId], title, author, description, pictureUrl);
      s.books == old(s.books)[bookId := b] && r == Ok(Saved(bookId, b))
  {
    if bookId !in s.books {
      return Err(ResourceNotFound);
    }
    var b := s.books[bookId];
    b := b.(title := title, author := author, description := description, pictureUrl := pictureUrl);
    BookEditKeepsConsistent(s.users, s.books, s.matches, s.exchanges, s.reviews,
      s.nextUserId, s.nextBookId, s.nextMatchId, s.nextExchangeId, s.nextReviewId, bookId, b);
    s.books := s.books[bookId := b];
    r := Ok(Saved(bookId, b));
  }

  /** toggleBookAvailability(bookId). */
  method ToggleBookAvailability(s: Store, bookId: BookId) returns (r: Outcome)
    requires s.Valid()
    modifies s`books
    ensures s.Valid()
    ensures bookId !in old(s.books) ==> r == Fail(ResourceNotFound) && s.books == old(s.books)
    ensures bookId in old(s.books) ==> r == Done && s.books == old(s.books)[bookId := Toggled(old(s.books)[bookId])]
  {
    if bookId !in s.books {
      return Fail(ResourceNotFound);
    }
    var b := s.books[bookId];
    b := b.(available := !b.available);
    BookEditKeepsConsistent(s.users, s.books, s.matches, s.exchanges, s.reviews,
      s.nextUserId, s.nextBookId, s.nextMatchId, s.nextExchangeId, s.nextReviewId, bookId, b);
    s.books := s.books[bookId := b];
    r := Done;
  }
}
