/** The queries of BookRepository as selection functions over the book table,
    including the case-insensitive title/author search. */
module BookRepository {
  import opened Domain

  /** findByOwner(owner); also what user.getBooks() holds. */
  function FindByOwner(books: map<BookId, Book>, owner: UserId): (r: set<BookId>)
    ensures forall id :: id in r <==> id in books && books[id].owner == owner
  {
    set id | id in books && books[id].owner == owner
  }

  /** findByAvailableTrue(). */
  function FindByAvailableTrue(books: map<BookId, Book>): (r: set<BookId>)
    ensures forall id :: id in r <==> id in books && books[id].available
  {
    set id | id in books && books[id].available
  }

  /** findAvailableBooksForUser(userId): available books somebody else owns. */
  function FindAvailableBooksForUser(books: map<BookId, Book>, userId: UserId): (r: set<BookId>)
    ensures forall id :: id in r <==> id in books && books[id].available && books[id].owner != userId
    ensures r <= FindByAvailableTrue(books)
  {
    set id | id in books && books[id].available && books[id].owner != userId
  }

  // ----- the search -----

  /** SQL LOWER on one character; only the ASCII letters are folded. */
  function LowerChar(c: char): char
  {
    if 'A' <= c <= 'Z' then (c as int + 32) as char else c
  }

  function Lower(s: string): (r: string)
    ensures |r| == |s|
    ensures forall i :: 0 <= i < |s| ==> r[i] == LowerChar(s[i])
  {
    if s == [] then [] else [LowerChar(s[0])] + Lower(s[1..])
  }

  /** `t` occurs in `s` starting at position `i`. */
  predicate OccursAt(s: string, t: string, i: nat)
  {
    i + |t| <= |s| && s[i..i + |t|] == t
  }

  /** `t` occurs in `s` as a contiguous piece. */
  predicate ContainsSubstring(s: string, t: string)
  {
    exists i: nat :: i <= |s| && OccursAt(s, t, i)
  }

  lemma EmptyIsSubstring(s: string)
    ensures ContainsSubstring(s, "")
  {
    assert OccursAt(s, "", 0);
  }

  /** The book's lowercased title or lowercased author contains the lowercased term. */
  predicate TitleOrAuthorContains(b: Book, term: string)
  {
    ContainsSubstring(Lower(b.title), Lower(term)) || ContainsSubstring(Lower(b.author), Lower(term))
  }

  /** searchAvailableBooks(userId, searchTerm), read as its comment states it:
      available books somebody else owns whose title or author contains the
      term, ignoring case (see the as-written LIKE reading in BookSearchLike). */
  function SearchAvailableBooks(books: map<BookId, Book>, userId: UserId, term: string): (r: set<BookId>)
    ensures forall id :: id in r <==> id in FindAvailableBooksForUser(books, userId) && TitleOrAuthorContains(books[id], term)
    ensures r <= FindAvailableBooksForUser(books, userId)
  {
    set id | id in books && books[id].available && books[id].owner != userId && TitleOrAuthorContains(books[id], term)
  }

  /** An empty term selects every available book the user does not own. */
  lemma EmptyTermSelectsAllAvailable(books: map<BookId, Book>, userId: UserId)
    ensures SearchAvailableBooks(books, userId, "") == FindAvailableBooksForUser(books, userId)
  {
    forall id | id in FindAvailableBooksForUser(books, userId)
      ensures TitleOrAuthorContains(books[id], "")
    {
      EmptyIsSubstring(Lower(books[id].title));
    }
  }
}
