/**
 * The search effect: a blank query clears the results; otherwise the books
 * (by title or author), then the chapters (by title), then the notes (by
 * title or content) whose lower-cased text contains the lower-cased query
 * are listed, each collection in its own order. The query is trimmed only to
 * decide whether it is blank; the match uses it untrimmed.
 */
module Search {
  import opened Text
  import opened Entities

  /** One entry of the result list, carrying what a click needs to navigate to it. */
  datatype SearchResult =
    | BookHit(id: int, title: string, author: string)
    | ChapterHit(id: int, bookId: int, title: string)
    | DetailHit(id: int, chapterId: int, title: string)

  predicate BookMatches(b: Book, q: string)
  {
    Includes(Lower(b.title), q) || Includes(Lower(b.author), q)
  }

  predicate ChapterMatches(c: Chapter, q: string)
  {
    Includes(Lower(c.title), q)
  }

  predicate DetailMatches(d: Detail, q: string)
  {
    Includes(Lower(d.title), q) || Includes(Lower(d.content), q)
  }

  function BookResult(b: Book): SearchResult { BookHit(b.id, b.title, b.author) }
  function ChapterResult(c: Chapter): SearchResult { ChapterHit(c.id, c.bookId, c.title) }
  function DetailResult(d: Detail): SearchResult { DetailHit(d.id, d.chapterId, d.title) }

  /** The results the pass over the books pushes for the lowered query `q`: at most one per book. */
  function BookHits(books: seq<Book>, q: string): (r: seq<SearchResult>)
  {
    if books == [] then []
    else
      var b := books[|books| - 1];
      BookHits(books[..|books| - 1], q) + (if BookMatches(b, q) then [BookResult(b)] else [])
  }

  function ChapterHits(chapters: seq<Chapter>, q: string): (r: seq<SearchResult>)
  {
    if chapters == [] then []
    else
      var c := chapters[|chapters| - 1];
      ChapterHits(chapters[..|chapters| - 1], q) + (if ChapterMatches(c, q) then [ChapterResult(c)] else [])
  }

  function DetailHits(details: seq<Detail>, q: string): (r: seq<SearchResult>)
  {
    if details == [] then []
    else
      var d := details[|details| - 1];
      DetailHits(details[..|details| - 1], q) + (if DetailMatches(d, q) then [DetailResult(d)] else [])
  }

  /**
   * What the effect stores in `searchResults` for a query and the three
   * collections: nothing for a blank query, and never more results than
   * there are entities.
   */
  function SearchSpec(query: string, books: seq<Book>, chapters: seq<Chapter>, details: seq<Detail>)
    : (r: seq<SearchResult>)
  {
    if IsBlank(query) then []
    else
      var q := Lower(query);
      BookHits(books, q) + ChapterHits(chapters, q) + DetailHits(details, q)
  }

  /** The effect's body: a blank query clears the results, otherwise three passes push the matches. */
  method RunSearch(query: string, books: seq<Book>, chapters: seq<Chapter>, details: seq<Detail>)
    returns (results: seq<SearchResult>)
    ensures results == SearchSpec(query, books, chapters, details)
  {
    if IsBlank(query) {
      return [];
    }
    var q := Lower(query);
    var bookResults := BookPass(books, q);
    var chapterResults := ChapterPass(chapters, q);
    var detailResults := DetailPass(details, q);
    results := bookResults + chapterResults + detailResults;
  }

  /** `books.forEach(...)`: pushes each matching book, in order. */
  method BookPass(books: seq<Book>, q: string) returns (results: seq<SearchResult>)
    ensures results == BookHits(books, q)
  {
    results := [];
    var i := 0;
    while i < |books|
      invariant 0 <= i <= |books|
      invariant results == BookHits(books[..i], q)
    {
      assert books[..i + 1][..i] == books[..i];
      if BookMatches(books[i], q) {
        results := results + [BookResult(books[i])];
      }
      i := i + 1;
    }
    assert books[..|books|] == books;
  }

  /** `chapters.forEach(...)`: pushes each matching chapter, in order. */
  method ChapterPass(chapters: seq<Chapter>, q: string) returns (results: seq<SearchResult>)
    ensures results == ChapterHits(chapters, q)
  {
    results := [];
    var j := 0;
    while j < |chapters|
      invariant 0 <= j <= |chapters|
      invariant results == ChapterHits(chapters[..j], q)
    {
      assert chapters[..j + 1][..j] == chapters[..j];
      if ChapterMatches(chapters[j], q) {
        results := results + [ChapterResult(chapters[j])];
      }
      j := j + 1;
    }
    assert chapters[..|chapters|] == chapters;
  }

  /** `details.forEach(...)`: pushes each matching note, in order. */
  method DetailPass(details: seq<Detail>, q: string) returns (results: seq<SearchResult>)
    ensures results == DetailHits(details, q)
  {
    results := [];
    var k := 0;
    while k < |details|
      invariant 0 <= k <= |details|
      invariant results == DetailHits(details[..k], q)
    {
      assert details[..k + 1][..k] == details[..k];
      if DetailMatches(details[k], q) {
        results := results + [DetailResult(details[k])];
      }
      k := k + 1;
    }
    assert details[..|details|] == details;
  }

  // ---------------------------------------------------------------- what the results mean

  /** The book results are exactly the matching books. */
  lemma {:induction false} BookHitsIff(books: seq<Book>, q: string, h: SearchResult)
    ensures h in BookHits(books, q) <==>
            exists i :: 0 <= i < |books| && BookMatches(books[i], q) && h == BookResult(books[i])
  {
    if books != [] {
      var init := books[..|books| - 1];
      BookHitsIff(init, q, h);
      assert forall i :: 0 <= i < |init| ==> init[i] == books[i];
    }
  }

  lemma {:induction false} ChapterHitsIff(chapters: seq<Chapter>, q: string, h: SearchResult)
    ensures h in ChapterHits(chapters, q) <==>
            exists i :: 0 <= i < |chapters| && ChapterMatches(chapters[i], q) && h == ChapterResult(chapters[i])
  {
    if chapters != [] {
      var init := chapters[..|chapters| - 1];
      ChapterHitsIff(init, q, h);
      assert forall i :: 0 <= i < |init| ==> init[i] == chapters[i];
    }
  }

  lemma {:induction false} DetailHitsIff(details: seq<Detail>, q: string, h: SearchResult)
    ensures h in DetailHits(details, q) <==>
            exists i :: 0 <= i < |details| && DetailMatches(details[i], q) && h == DetailResult(details[i])
  {
    if details != [] {
      var init := details[..|details| - 1];
      DetailHitsIff(init, q, h);
      assert forall i :: 0 <= i < |init| ==> init[i] == details[i];
    }
  }

  /** A blank query lists nothing; any other query lists exactly the matching entities. */
  lemma SearchMembership(query: string, books: seq<Book>, chapters: seq<Chapter>, details: seq<Detail>,
                         h: SearchResult)
    ensures IsBlank(query) ==> SearchSpec(query, books, chapters, details) == []
    ensures !IsBlank(query) ==>
              (h in SearchSpec(query, books, chapters, details) <==>
                 ((exists i :: 0 <= i < |books| && BookMatches(books[i], Lower(query))
                                                && h == BookResult(books[i]))
                  || (exists i :: 0 <= i < |chapters| && ChapterMatches(chapters[i], Lower(query))
                                                      && h == ChapterResult(chapters[i]))
                  || (exists i :: 0 <= i < |details| && DetailMatches(details[i], Lower(query))
                                                     && h == DetailResult(details[i]))))
  {
    var q := Lower(query);
    BookHitsIff(books, q, h);
    ChapterHitsIff(chapters, q, h);
    DetailHitsIff(details, q, h);
  }

  /** The empty query, the search box's initial value, lists nothing. */
  lemma EmptyQueryFindsNothing(books: seq<Book>, chapters: seq<Chapter>, details: seq<Detail>)
    ensures SearchSpec("", books, chapters, details) == []
  {
    assert AllWhitespace("");
  }

  /** Each pass keeps its collection's order: the hits of a concatenation are the concatenated hits. */
  lemma {:induction false} BookHitsAppend(a: seq<Book>, b: seq<Book>, q: string)
    ensures BookHits(a + b, q) == BookHits(a, q) + BookHits(b, q)
    decreases |b|
  {
    if b == [] {
      assert a + b == a;
    } else {
      var init := b[..|b| - 1];
      assert (a + b)[..|a + b| - 1] == a + init;
      BookHitsAppend(a, init, q);
    }
  }

  lemma {:induction false} ChapterHitsAppend(a: seq<Chapter>, b: seq<Chapter>, q: string)
    ensures ChapterHits(a + b, q) == ChapterHits(a, q) + ChapterHits(b, q)
    decreases |b|
  {
    if b == [] {
      assert a + b == a;
    } else {
      var init := b[..|b| - 1];
      assert (a + b)[..|a + b| - 1] == a + init;
      ChapterHitsAppend(a, init, q);
    }
  }

  lemma {:induction false} DetailHitsAppend(a: seq<Detail>, b: seq<Detail>, q: string)
    ensures DetailHits(a + b, q) == DetailHits(a, q) + DetailHits(b, q)
    decreases |b|
  {
    if b == [] {
      assert a + b == a;
    } else {
      var init := b[..|b| - 1];
      assert (a + b)[..|a + b| - 1] == a + init;
      DetailHitsAppend(a, init, q);
    }
  }

  /**
   * Each entity is listed at most once, in its own place: the pass over the
   * books yields the results of the books before `i`, then the result of
   * book `i` exactly when it matches, then the results of the books after it.
   */
  lemma BookHitsAt(books: seq<Book>, q: string, i: nat)
    requires i < |books|
    ensures BookHits(books, q)
            == BookHits(books[..i], q)
               + (if BookMatches(books[i], q) then [BookResult(books[i])] else [])
               + BookHits(books[i + 1..], q)
  {
    assert books == books[..i] + [books[i]] + books[i + 1..];
    BookHitsAppend(books[..i] + [books[i]], books[i + 1..], q);
    BookHitsAppend(books[..i], [books[i]], q);
    assert [books[i]][..0] == [];
  }

  /** The same for the chapters. */
  lemma ChapterHitsAt(chapters: seq<Chapter>, q: string, i: nat)
    requires i < |chapters|
    ensures ChapterHits(chapters, q)
            == ChapterHits(chapters[..i], q)
               + (if ChapterMatches(chapters[i], q) then [ChapterResult(chapters[i])] else [])
               + ChapterHits(chapters[i + 1..], q)
  {
    assert chapters == chapters[..i] + [chapters[i]] + chapters[i + 1..];
    ChapterHitsAppend(chapters[..i] + [chapters[i]], chapters[i + 1..], q);
    ChapterHitsAppend(chapters[..i], [chapters[i]], q);
    assert [chapters[i]][..0] == [];
  }

  /** The same for the notes. */
  lemma DetailHitsAt(details: seq<Detail>, q: string, i: nat)
    requires i < |details|
    ensures DetailHits(details, q)
            == DetailHits(details[..i], q)
               + (if DetailMatches(details[i], q) then [DetailResult(details[i])] else [])
               + DetailHits(details[i + 1..], q)
  {
    assert details == details[..i] + [details[i]] + details[i + 1..];
    DetailHitsAppend(details[..i] + [details[i]], details[i + 1..], q);
    DetailHitsAppend(details[..i], [details[i]], q);
    assert [details[i]][..0] == [];
  }

  /** 0 for a book, 1 for a chapter, 2 for a note. */
  function Rank(h: SearchResult): nat
  {
    match h
    case BookHit(_, _, _) => 0
    case ChapterHit(_, _, _) => 1
    case DetailHit(_, _, _) => 2
  }

  lemma {:induction false} HitRanks(books: seq<Book>, chapters: seq<Chapter>, details: seq<Detail>,
                                    q: string)
    ensures forall h :: h in BookHits(books, q) ==> Rank(h) == 0
    ensures forall h :: h in ChapterHits(chapters, q) ==> Rank(h) == 1
    ensures forall h :: h in DetailHits(details, q) ==> Rank(h) == 2
  {
    forall h | h in BookHits(books, q) ensures Rank(h) == 0 { BookHitsIff(books, q, h); }
    forall h | h in ChapterHits(chapters, q) ensures Rank(h) == 1 { ChapterHitsIff(chapters, q, h); }
    forall h | h in DetailHits(details, q) ensures Rank(h) == 2 { DetailHitsIff(details, q, h); }
  }

  /** Every listed result names an entity that is in its collection. */
  lemma ListedHitExists(query: string, books: seq<Book>, chapters: seq<Chapter>, details: seq<Detail>,
                        h: SearchResult)
    requires h in SearchSpec(query, books, chapters, details)
    ensures h.BookHit? ==> FindBook(books, h.id).Some?
    ensures h.ChapterHit? ==> FindChapter(chapters, h.id).Some?
    ensures h.DetailHit? ==> FindDetail(details, h.id).Some?
  {
    var q := Lower(query);
    HitRanks(books, chapters, details, q);
    BookHitsIff(books, q, h);
    ChapterHitsIff(chapters, q, h);
    DetailHitsIff(details, q, h);
    if h.BookHit? {
      var i :| 0 <= i < |books| && BookMatches(books[i], q) && h == BookResult(books[i]);
      assert books[i].id == h.id;
    } else if h.ChapterHit? {
      var i :| 0 <= i < |chapters| && ChapterMatches(chapters[i], q) && h == ChapterResult(chapters[i]);
      assert chapters[i].id == h.id;
    } else {
      var i :| 0 <= i < |details| && DetailMatches(details[i], q) && h == DetailResult(details[i]);
      assert details[i].id == h.id;
    }
  }

  /** All book results come first, then all chapter results, then all note results. */
  lemma SearchGroupedByKind(query: string, books: seq<Book>, chapters: seq<Chapter>, details: seq<Detail>)
    ensures var r := SearchSpec(query, books, chapters, details);
            forall i, j :: 0 <= i < j < |r| ==> Rank(r[i]) <= Rank(r[j])
  {
    if !IsBlank(query) {
      var q := Lower(query);
      HitRanks(books, chapters, details, q);
      RanksInOrder(BookHits(books, q), ChapterHits(chapters, q), DetailHits(details, q));
    }
  }

  /** Three runs of ranks 0, 1 and 2, concatenated, are ordered by rank. */
  lemma RanksInOrder(bh: seq<SearchResult>, ch: seq<SearchResult>, dh: seq<SearchResult>)
    requires forall h :: h in bh ==> Rank(h) == 0
    requires forall h :: h in ch ==> Rank(h) == 1
    requires forall h :: h in dh ==> Rank(h) == 2
    ensures var r := bh + ch + dh; forall i, j :: 0 <= i < j < |r| ==> Rank(r[i]) <= Rank(r[j])
  {
    var r := bh + ch + dh;
    forall i | 0 <= i < |r| ensures Rank(r[i]) == if i < |bh| then 0 else if i < |bh| + |ch| then 1 else 2 {
      if i < |bh| {
        assert r[i] == bh[i];
      } else if i < |bh| + |ch| {
        assert r[i] == ch[i - |bh|];
      } else {
        assert r[i] == dh[i - |bh| - |ch|];
      }
    }
  }

  /** The query's case does not matter: an upper-case query finds what its lower-case form finds. */
  lemma SearchIgnoresQueryCase(query: string, books: seq<Book>, chapters: seq<Chapter>, details: seq<Detail>)
    ensures SearchSpec(Lower(query), books, chapters, details) == SearchSpec(query, books, chapters, details)
  {
    LowerKeepsBlankness(query);
  }

  lemma QueriesAreNotBlank()
    ensures !IsBlank("ab") && !IsBlank("ab ")
  {
    assert "ab"[0] == 'a' && "ab "[0] == 'a';
  }

  lemma LowerOfLowerCase()
    ensures Lower("ab") == "ab" && Lower("ab ") == "ab " && Lower("") == ""
  {
    assert Lower("ab")[0] == 'a' && Lower("ab")[1] == 'b';
    assert Lower("ab ")[0] == 'a' && Lower("ab ")[1] == 'b' && Lower("ab ")[2] == ' ';
  }

  lemma IncludesFacts()
    ensures Includes("ab", "ab") && !Includes("ab", "ab ") && !Includes("", "ab ")
  {
    assert "ab"[0..2] == "ab";
    assert !StartsWith("b", "ab ") && !StartsWith("", "ab ");
    assert !Includes("b", "ab ");
  }

  /** A shelf of one book, no chapters and no notes lists that book exactly when it matches. */
  lemma OneBookSearch(query: string, b: Book)
    requires !IsBlank(query)
    ensures SearchSpec(query, [b], [], []) == if BookMatches(b, Lower(query)) then [BookResult(b)] else []
  {
    var q := Lower(query);
    assert [b][..0] == [];
    assert BookHits([b], q) == if BookMatches(b, q) then [BookResult(b)] else [];
    assert ChapterHits([], q) == [] && DetailHits([], q) == [];
  }

  /** The query is not trimmed for matching: "ab " does not find a book titled "ab"… */
  lemma TrailingSpaceMatters()
    ensures SearchSpec("ab ", [NewBook(1).(title := "ab")], [], []) == []
  {
    var b := NewBook(1).(title := "ab");
    QueriesAreNotBlank();
    LowerOfLowerCase();
    IncludesFacts();
    OneBookSearch("ab ", b);
  }

  /** … while "ab" does. */
  lemma UntrimmedQueryFinds()
    ensures SearchSpec("ab", [NewBook(1).(title := "ab")], [], []) == [BookHit(1, "ab", "")]
  {
    var b := NewBook(1).(title := "ab");
    QueriesAreNotBlank();
    LowerOfLowerCase();
    IncludesFacts();
    OneBookSearch("ab", b);
  }
}
