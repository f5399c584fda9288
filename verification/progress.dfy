/**
 * `calculateProgress(bookId)`: the share of a book's pages covered by notes
 * that have content, as a whole percentage capped at 100. The percentage is
 * `Math.round(written / totalPages * 100)`, computed here exactly: for a
 * positive page count `P`, `Math.round(100 * w / P)` is
 * `floor((200 * w + P) / (2 * P))`.
 */
module Progress {
  import opened Wrappers
  import opened Text
  import opened Entities

  /** `chapters.filter(c => c.bookId === bookId).map(c => c.id)`. */
  function ChapterIdsOf(chapters: seq<Chapter>, bookId: int): (ids: seq<int>)
    ensures |ids| <= |chapters|
    ensures forall id :: id in ids <==>
              exists i :: 0 <= i < |chapters| && chapters[i].bookId == bookId && chapters[i].id == id
  {
    if chapters == [] then []
    else
      var rest := ChapterIdsOf(chapters[1..], bookId);
      assert forall i :: 1 <= i < |chapters| ==> chapters[1..][i - 1] == chapters[i];
      (if chapters[0].bookId == bookId then [chapters[0].id] else []) + rest
  }

  /** A note is counted when its chapter belongs to the book and its content is not blank. */
  predicate Counted(d: Detail, ids: seq<int>)
  {
    d.chapterId in ids && !IsBlank(d.content)
  }

  /** The pages a note covers, both ends included; negative when the end precedes the start. */
  function Span(d: Detail): int
  {
    d.endPage - d.startPage + 1
  }

  /**
   * The `reduce` over the counted notes, in list order: zero when no note
   * counts, and never negative when no note runs backwards.
   */
  function WrittenPages(details: seq<Detail>, ids: seq<int>): (w: int)
    ensures (forall i :: 0 <= i < |details| ==> !Counted(details[i], ids)) ==> w == 0
    ensures (forall i :: 0 <= i < |details| ==> Span(details[i]) >= 0) ==> w >= 0
  {
    if details == [] then 0
    else
      var d := details[|details| - 1];
      WrittenPages(details[..|details| - 1], ids) + (if Counted(d, ids) then Span(d) else 0)
  }

  /** The written pages of a book: none for a book without chapters. */
  function Written(chapters: seq<Chapter>, details: seq<Detail>, bookId: int): (w: int)
    ensures (forall i :: 0 <= i < |chapters| ==> chapters[i].bookId != bookId) ==> w == 0
  {
    var ids := ChapterIdsOf(chapters, bookId);
    assert (forall i :: 0 <= i < |chapters| ==> chapters[i].bookId != bookId) ==>
             forall i :: 0 <= i < |details| ==> details[i].chapterId !in ids;
    WrittenPages(details, ids)
  }

  /** `Math.round(w / total * 100)`: the integer nearest to `100 * w / total`, halves rounded up. */
  function RoundedPercent(w: int, total: int): (r: int)
    requires total > 0
    ensures (2 * r - 1) * total <= 200 * w < (2 * r + 1) * total
  {
    var x := 200 * w + total;
    var d := 2 * total;
    var q := x / d;
    assert x == q * d + x % d && 0 <= x % d < d;
    assert q * d == 2 * q * total;
    q
  }

  lemma MulMonotone(a: int, b: int, p: int)
    requires a <= b && p > 0
    ensures a * p <= b * p
  {
    assert b * p - a * p == (b - a) * p;
  }

  /** The rounded value reaches `k` exactly when `100 * w / total` reaches `k - 1/2`. */
  lemma RoundedPercentAtLeast(w: int, total: int, k: int)
    requires total > 0
    ensures RoundedPercent(w, total) >= k <==> 200 * w >= (2 * k - 1) * total
  {
    var r := RoundedPercent(w, total);
    if r >= k {
      MulMonotone(2 * k - 1, 2 * r - 1, total);
    } else {
      MulMonotone(2 * r + 1, 2 * k - 1, total);
    }
  }

  /** Rounding keeps the order of its inputs. */
  lemma RoundedPercentMonotone(w1: int, w2: int, total: int)
    requires total > 0 && w1 <= w2
    ensures RoundedPercent(w1, total) <= RoundedPercent(w2, total)
  {
    var r1 := RoundedPercent(w1, total);
    RoundedPercentAtLeast(w1, total, r1);
    RoundedPercentAtLeast(w2, total, r1);
  }

  /** Rounding moves a value by at most half a percent, so zero pages give zero. */
  lemma RoundedPercentOfNothing(total: int)
    requires total > 0
    ensures RoundedPercent(0, total) == 0
  {
    RoundedPercentAtLeast(0, total, 0);
    RoundedPercentAtLeast(0, total, 1);
  }

  /**
   * `calculateProgress(bookId)`: 0 for an unknown book or one without a
   * positive page count; otherwise the rounded percentage of written pages,
   * capped above at 100 (and not bounded below).
   */
  function CalculateProgress(books: seq<Book>, chapters: seq<Chapter>, details: seq<Detail>,
                             bookId: int): (r: int)
    ensures r <= 100
    ensures FindBook(books, bookId).None? ==> r == 0
    ensures FindBook(books, bookId).Some? && FindBook(books, bookId).value.totalPages <= 0 ==> r == 0
    ensures FindBook(books, bookId).Some? && FindBook(books, bookId).value.totalPages > 0 ==>
              var p := FindBook(books, bookId).value.totalPages;
              var w := Written(chapters, details, bookId);
              (r == 100 <==> 200 * w >= 199 * p)
              && (r < 100 ==> (2 * r - 1) * p <= 200 * w < (2 * r + 1) * p)
  {
    match FindBook(books, bookId)
    case None => 0
    case Some(book) =>
      if book.totalPages <= 0 then 0
      else
        var w := Written(chapters, details, bookId);
        var r := RoundedPercent(w, book.totalPages);
        RoundedPercentAtLeast(w, book.totalPages, 100);
        if r < 100 then r else 100
  }

  /** A new note adds its span exactly when it is counted. */
  lemma WrittenPagesAppend(details: seq<Detail>, d: Detail, ids: seq<int>)
    ensures WrittenPages(details + [d], ids)
            == WrittenPages(details, ids) + (if Counted(d, ids) then Span(d) else 0)
  {
    assert (details + [d])[..|details|] == details;
  }

  /** Writing a note with a non-negative page span never lowers any book's progress. */
  lemma ProgressMonotone(books: seq<Book>, chapters: seq<Chapter>, details: seq<Detail>,
                         bookId: int, d: Detail)
    requires Span(d) >= 0
    ensures CalculateProgress(books, chapters, details, bookId)
            <= CalculateProgress(books, chapters, details + [d], bookId)
  {
    WrittenPagesAppend(details, d, ChapterIdsOf(chapters, bookId));
    if FindBook(books, bookId).Some? && FindBook(books, bookId).value.totalPages > 0 {
      var p := FindBook(books, bookId).value.totalPages;
      RoundedPercentMonotone(Written(chapters, details, bookId), Written(chapters, details + [d], bookId), p);
    }
  }

  /** A book none of whose notes has content shows no progress. */
  lemma NoWrittenNotesNoProgress(books: seq<Book>, chapters: seq<Chapter>, details: seq<Detail>,
                                 bookId: int)
    requires forall i :: 0 <= i < |details| ==> !Counted(details[i], ChapterIdsOf(chapters, bookId))
    ensures CalculateProgress(books, chapters, details, bookId) == 0
  {
    if FindBook(books, bookId).Some? && FindBook(books, bookId).value.totalPages > 0 {
      RoundedPercentOfNothing(FindBook(books, bookId).value.totalPages);
    }
  }

  /** The page total of a one-book shelf holding `book`, with one chapter and one note under it. */
  lemma OneNoteShelf(book: Book, chapter: Chapter, note: Detail)
    requires chapter.bookId == book.id && note.chapterId == chapter.id
    requires book.totalPages > 0 && !IsBlank(note.content)
    ensures CalculateProgress([book], [chapter], [note], book.id)
            == var r := RoundedPercent(Span(note), book.totalPages); if r < 100 then r else 100
  {
    assert FindBook([book], book.id) == Some(book);
    assert ChapterIdsOf([chapter], book.id) == [chapter.id];
    assert WrittenPages([note], [chapter.id]) == Span(note) by {
      assert [note][..0] == [];
    }
  }

  /** Notes with content on pages 1 to 10 of a 300-page book: 10 / 300 is 3.33…%, shown as 3. */
  lemma TenOfThreeHundredPages(book: Book, chapter: Chapter, note: Detail)
    requires book.totalPages == 300 && chapter.bookId == book.id && note.chapterId == chapter.id
    requires note.startPage == 1 && note.endPage == 10 && !IsBlank(note.content)
    ensures CalculateProgress([book], [chapter], [note], book.id) == 3
  {
    OneNoteShelf(book, chapter, note);
    RoundedPercentAtLeast(10, 300, 3);
    RoundedPercentAtLeast(10, 300, 4);
  }

  /**
   * The lower end is not capped: a note whose end page precedes its start
   * page (pages 10 to 1, a span of -8) gives -3.
   */
  lemma ReversedPagesGoNegative(book: Book, chapter: Chapter, note: Detail)
    requires book.totalPages == 300 && chapter.bookId == book.id && note.chapterId == chapter.id
    requires note.startPage == 10 && note.endPage == 1 && !IsBlank(note.content)
    ensures CalculateProgress([book], [chapter], [note], book.id) == -3
  {
    OneNoteShelf(book, chapter, note);
    RoundedPercentAtLeast(-8, 300, -3);
    RoundedPercentAtLeast(-8, 300, -2);
  }
}
