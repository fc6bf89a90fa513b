/** The search query of BookRepository as it is written, with SQL LIKE:
    `LOWER(title) LIKE LOWER(CONCAT('%', term, '%'))`. The term is pasted into
    the pattern unescaped, so a '%' or '_' in it acts as a wildcard. For terms
    without those two characters this is exactly the substring search of
    BookRepository.SearchAvailableBooks; for others it is not. */
module BookSearchLike {
  import opened Domain
  import opened BookRepository

  /** SQL LIKE without an ESCAPE clause: '%' matches any run of characters,
      '_' any single character, every other character itself. */
  function Like(s: string, p: string): bool
    decreases |s| + |p|
  {
    if p == [] then s == []
    else if p[0] == '%' then Like(s, p[1..]) || (s != [] && Like(s[1..], p))
    else s != [] && (p[0] == '_' || p[0] == s[0]) && Like(s[1..], p[1..])
  }

  predicate FreeOfWildcards(t: string)
  {
    forall i :: 0 <= i < |t| ==> t[i] != '%' && t[i] != '_'
  }

  lemma {:induction false} PercentMatchesAnything(s: string)
    ensures Like(s, "%")
  {
    if s != [] {
      PercentMatchesAnything(s[1..]);
    }
  }

  /** `t%` matches exactly the strings that start with `t`. */
  lemma {:induction false} LikeTrailingPercent(s: string, t: string)
    requires FreeOfWildcards(t)
    ensures Like(s, t + "%") <==> (|t| <= |s| && s[..|t|] == t)
  {
    if t == [] {
      assert t + "%" == "%";
      PercentMatchesAnything(s);
    } else {
      var p := t + "%";
      assert p[0] == t[0] && p[0] != '%' && p[0] != '_';
      assert p[1..] == t[1..] + "%";
      if s != [] {
        LikeTrailingPercent(s[1..], t[1..]);
        if |t| <= |s| && s[..|t|] == t {
          assert s[1..][..|t| - 1] == t[1..];
        }
        if s[0] == t[0] && |t| - 1 <= |s| - 1 && s[1..][..|t| - 1] == t[1..] {
          assert s[..|t|] == [s[0]] + s[1..][..|t| - 1];
          assert t == [t[0]] + t[1..];
        }
      }
    }
  }

  /** `%q` matches exactly the strings with a suffix that `q` matches. */
  lemma {:induction false} LikeLeadingPercent(s: string, q: string)
    ensures Like(s, "%" + q) <==> exists i: nat :: i <= |s| && Like(s[i..], q)
  {
    var p := "%" + q;
    assert p[0] == '%' && p[1..] == q;
    if s == [] {
      assert s[0..] == s;
    } else {
      LikeLeadingPercent(s[1..], q);
      assert s[0..] == s;
      if Like(s[1..], p) {
        var i: nat :| i <= |s[1..]| && Like(s[1..][i..], q);
        assert s[1..][i..] == s[i + 1..];
      }
      if exists i: nat :: i <= |s| && Like(s[i..], q) {
        var i: nat :| i <= |s| && Like(s[i..], q);
        if i > 0 {
          assert s[1..][i - 1..] == s[i..];
        }
      }
    }
  }

  /** For a term without wildcards, `%term%` is the substring test. */
  lemma LikeIsSubstringForPlainTerms(s: string, t: string)
    requires FreeOfWildcards(t)
    ensures Like(s, "%" + t + "%") <==> ContainsSubstring(s, t)
  {
    assert "%" + t + "%" == "%" + (t + "%");
    LikeLeadingPercent(s, t + "%");
    if Like(s, "%" + t + "%") {
      var i: nat :| i <= |s| && Like(s[i..], t + "%");
      LikeTrailingPercent(s[i..], t);
      assert s[i..][..|t|] == s[i..i + |t|];
      assert OccursAt(s, t, i);
    }
    if ContainsSubstring(s, t) {
      var i: nat :| i <= |s| && OccursAt(s, t, i);
      LikeTrailingPercent(s[i..], t);
      assert s[i..][..|t|] == s[i..i + |t|];
    }
  }

  /** LOWER(CONCAT('%', term, '%')) is '%' + LOWER(term) + '%', and lowering a
      term neither adds nor removes wildcards. */
  lemma LowerPattern(t: string)
    ensures Lower("%" + t + "%") == "%" + Lower(t) + "%"
    ensures FreeOfWildcards(t) <==> FreeOfWildcards(Lower(t))
  {
    var lhs, rhs := Lower("%" + t + "%"), "%" + Lower(t) + "%";
    assert |lhs| == |rhs|;
    forall i | 0 <= i < |lhs| ensures lhs[i] == rhs[i] {
      if 0 < i < |lhs| - 1 {
        assert ("%" + t + "%")[i] == t[i - 1];
      }
    }
  }

  /** The WHERE clause's title/author disjunct as written. */
  predicate TitleOrAuthorLike(b: Book, term: string)
  {
    var pattern := Lower("%" + term + "%");
    Like(Lower(b.title), pattern) || Like(Lower(b.author), pattern)
  }

  /** searchAvailableBooks(userId, searchTerm) as the query is written. It never
      leaves the available books of other owners, and for a term without '%'
      and '_' it is the substring search. */
  function SearchAvailableBooksAsWritten(books: map<BookId, Book>, userId: UserId, term: string): (r: set<BookId>)
    ensures r <= FindAvailableBooksForUser(books, userId)
    ensures FreeOfWildcards(term) ==> r == SearchAvailableBooks(books, userId, term)
  {
    var r := set id | id in books && books[id].available && books[id].owner != userId && TitleOrAuthorLike(books[id], term);
    if FreeOfWildcards(term) then
      PlainTermsAgree(books, userId, term);
      r
    else r
  }

  lemma PlainTermsAgree(books: map<BookId, Book>, userId: UserId, term: string)
    requires FreeOfWildcards(term)
    ensures forall id :: id in books ==> (TitleOrAuthorLike(books[id], term) <==> TitleOrAuthorContains(books[id], term))
  {
    LowerPattern(term);
    forall id | id in books
      ensures TitleOrAuthorLike(books[id], term) <==> TitleOrAuthorContains(books[id], term)
    {
      LikeIsSubstringForPlainTerms(Lower(books[id].title), Lower(term));
      LikeIsSubstringForPlainTerms(Lower(books[id].author), Lower(term));
    }
  }

  /** The search term "_" finds a book called "Dune" by "Herbert", although
      neither name contains an underscore. */
  lemma UnderscoreTermMatchesAnyTitle()
    ensures var b := Book("Dune", "Herbert", "", "", 0, 0, 0, true, 1);
      TitleOrAuthorLike(b, "_") && !TitleOrAuthorContains(b, "_")
  {
    var title := Lower("Dune");
    assert title == "dune" by {
      assert |title| == 4;
      assert title[0] == LowerChar('D') == 'd';
    }
    var pattern := Lower("%" + "_" + "%");
    assert pattern == "%_%" by {
      assert |pattern| == 3;
      assert ("%" + "_" + "%")[1] == '_';
    }
    assert Like("une", "%") by { PercentMatchesAnything("une"); }
    assert "_%"[1..] == "%" && "dune"[1..] == "une";
    assert Like("dune", "_%");
    assert "%_%"[1..] == "_%";
    assert Like("dune", "%_%");
    assert Lower("_") == "_";
    NoUnderscoreIn(title);
    NoUnderscoreIn(Lower("Herbert"));
  }

  lemma NoUnderscoreIn(s: string)
    requires forall i :: 0 <= i < |s| ==> s[i] != '_'
    ensures !ContainsSubstring(s, "_")
  {
    forall i: nat | i <= |s| ensures !OccursAt(s, "_", i) {
      if i + 1 <= |s| {
        assert s[i..i + 1][0] == s[i];
      }
    }
  }
}
