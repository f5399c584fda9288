/**
 * The records of the reading-notes store — books, their chapters and the
 * notes ("details") under each chapter — and the pure transformations the
 * component's handlers apply to the three lists: find by id, patch by id,
 * remove by id, append the next numbered child, and the genre lists.
 */
module Entities {
  import opened Wrappers
  import opened Text

  /**
   * A book's `category`: a list of genre names, or in older records a single
   * value (a missing value is modelled as the empty name).
   */
  datatype Category = Genres(names: seq<string>) | Single(name: string)

  datatype Book = Book(id: int, title: string, author: string, totalPages: int, status: string,
                       category: Category, coverUrl: string, videoUrl: string)

  datatype Chapter = Chapter(id: int, bookId: int, index: string, title: string, videoUrl: string)

  datatype Detail = Detail(id: int, chapterId: int, index: string, title: string,
                           startPage: int, endPage: int, content: string, videoUrl: string)

  /** One named library: the four collections stored in the registry. */
  datatype Library = Library(books: seq<Book>, chapters: seq<Chapter>, details: seq<Detail>,
                             customGenres: seq<string>)

  const EmptyLibrary := Library([], [], [], [])

  // ---------------------------------------------------------------- finding by id

  /** The position of the first element whose key is `id`, or `|xs|` when there is none. */
  function FirstWith<T>(xs: seq<T>, key: T -> int, id: int): (i: nat)
    ensures i <= |xs|
    ensures forall j :: 0 <= j < i ==> key(xs[j]) != id
    ensures i < |xs| ==> key(xs[i]) == id
  {
    if xs == [] then 0
    else if key(xs[0]) == id then 0
    else 1 + FirstWith(xs[1..], key, id)
  }

  /** `xs.find(x => key(x) === id)`: the first element with that key, if any. */
  function Find<T>(xs: seq<T>, key: T -> int, id: int): (r: Option<T>)
    ensures r.None? <==> forall j :: 0 <= j < |xs| ==> key(xs[j]) != id
    ensures r.Some? ==> key(r.value) == id && r.value in xs
    ensures r.Some? ==> r.value == xs[FirstWith(xs, key, id)]
  {
    var i := FirstWith(xs, key, id);
    if i < |xs| then Some(xs[i]) else None
  }

  function FindBook(books: seq<Book>, id: int): Option<Book>
  {
    Find(books, (b: Book) => b.id, id)
  }

  function FindChapter(chapters: seq<Chapter>, id: int): Option<Chapter>
  {
    Find(chapters, (c: Chapter) => c.id, id)
  }

  function FindDetail(details: seq<Detail>, id: int): Option<Detail>
  {
    Find(details, (d: Detail) => d.id, id)
  }

  // ---------------------------------------------------------------- patching books

  /** The fields an `updates` object may carry; a present field overrides the book's. */
  datatype BookPatch = BookPatch(id: Option<int>, title: Option<string>, author: Option<string>,
                                 totalPages: Option<int>, status: Option<string>,
                                 category: Option<Category>, coverUrl: Option<string>,
                                 videoUrl: Option<string>)

  const NoChange := BookPatch(None, None, None, None, None, None, None, None)

  function Override<T>(current: T, o: Option<T>): T
  {
    if o.Some? then o.value else current
  }

  /**
   * `{ ...b, ...updates }`: every field the updates carry takes their value,
   * every other field keeps the book's; empty updates change nothing.
   */
  function ApplyPatch(b: Book, p: BookPatch): (r: Book)
    ensures p == NoChange ==> r == b
    ensures r.id == (if p.id.Some? then p.id.value else b.id)
    ensures r.title == (if p.title.Some? then p.title.value else b.title)
    ensures r.author == (if p.author.Some? then p.author.value else b.author)
    ensures r.totalPages == (if p.totalPages.Some? then p.totalPages.value else b.totalPages)
    ensures r.status == (if p.status.Some? then p.status.value else b.status)
    ensures r.category == (if p.category.Some? then p.category.value else b.category)
    ensures r.coverUrl == (if p.coverUrl.Some? then p.coverUrl.value else b.coverUrl)
    ensures r.videoUrl == (if p.videoUrl.Some? then p.videoUrl.value else b.videoUrl)
  {
    Book(Override(b.id, p.id), Override(b.title, p.title), Override(b.author, p.author),
         Override(b.totalPages, p.totalPages), Override(b.status, p.status),
         Override(b.category, p.category), Override(b.coverUrl, p.coverUrl),
         Override(b.videoUrl, p.videoUrl))
  }

  /** A patch applied twice is applied once. */
  lemma ApplyPatchIdempotent(b: Book, p: BookPatch)
    ensures ApplyPatch(ApplyPatch(b, p), p) == ApplyPatch(b, p)
  {
  }

  /**
   * `books.map(b => b.id === id ? { ...b, ...p } : b)`: every book with that
   * id is patched, every other book and the order are kept.
   */
  function UpdateBooks(books: seq<Book>, id: int, p: BookPatch): (r: seq<Book>)
    ensures |r| == |books|
    ensures forall i :: 0 <= i < |books| && books[i].id != id ==> r[i] == books[i]
    ensures forall i :: 0 <= i < |books| && books[i].id == id ==> r[i] == ApplyPatch(books[i], p)
  {
    if books == [] then []
    else [if books[0].id == id then ApplyPatch(books[0], p) else books[0]] + UpdateBooks(books[1..], id, p)
  }

  /** Patching an id nobody has changes nothing. */
  lemma {:induction false} UpdateAbsentId(books: seq<Book>, id: int, p: BookPatch)
    requires forall i :: 0 <= i < |books| ==> books[i].id != id
    ensures UpdateBooks(books, id, p) == books
  {
    var r := UpdateBooks(books, id, p);
    assert forall i :: 0 <= i < |books| ==> r[i] == books[i];
  }

  /** A patch that keeps the id may be repeated without further effect. */
  lemma UpdateBooksIdempotent(books: seq<Book>, id: int, p: BookPatch)
    requires p.id.None? || p.id.value == id
    ensures UpdateBooks(UpdateBooks(books, id, p), id, p) == UpdateBooks(books, id, p)
  {
    var r := UpdateBooks(books, id, p);
    var rr := UpdateBooks(r, id, p);
    forall i | 0 <= i < |books| ensures rr[i] == r[i] {
      if books[i].id == id {
        ApplyPatchIdempotent(books[i], p);
      }
    }
  }

  /** The patch `handleRename` applies: the title only. */
  function TitlePatch(name: string): BookPatch
  {
    NoChange.(title := Some(name))
  }

  /** Renaming changes the title of the matching books and nothing else of any book. */
  lemma RenameTouchesOnlyTitles(books: seq<Book>, id: int, name: string)
    ensures var r := UpdateBooks(books, id, TitlePatch(name));
            forall i :: 0 <= i < |books| ==>
              r[i] == books[i].(title := if books[i].id == id then name else books[i].title)
  {
  }

  // ---------------------------------------------------------------- deleting a book

  /** `books.filter(b => b.id !== id)`. */
  function WithoutBook(books: seq<Book>, id: int): (r: seq<Book>)
    ensures |r| <= |books|
    ensures forall b :: b in r <==> b in books && b.id != id
  {
    if books == [] then []
    else if books[0].id == id then WithoutBook(books[1..], id)
    else [books[0]] + WithoutBook(books[1..], id)
  }

  /** Removal works piecewise, so the surviving books keep their order. */
  lemma {:induction false} WithoutBookAppend(a: seq<Book>, b: seq<Book>, id: int)
    ensures WithoutBook(a + b, id) == WithoutBook(a, id) + WithoutBook(b, id)
  {
    if a == [] {
      assert a + b == b;
    } else {
      assert (a + b)[1..] == a[1..] + b;
      WithoutBookAppend(a[1..], b, id);
    }
  }

  /** Removing an id nobody has changes nothing. */
  lemma {:induction false} WithoutAbsentBook(books: seq<Book>, id: int)
    requires forall i :: 0 <= i < |books| ==> books[i].id != id
    ensures WithoutBook(books, id) == books
  {
    if books != [] {
      WithoutAbsentBook(books[1..], id);
    }
  }

  // ---------------------------------------------------------------- editing details

  /** The changes the note editor makes to a note. */
  datatype DetailEdit =
    | SetStartPage(startPage: int)
    | SetEndPage(endPage: int)
    | SetTitle(title: string)
    | SetContent(content: string)
    | Replace(detail: Detail)

  function ApplyEdit(d: Detail, e: DetailEdit): Detail
  {
    match e
    case SetStartPage(v) => d.(startPage := v)
    case SetEndPage(v) => d.(endPage := v)
    case SetTitle(v) => d.(title := v)
    case SetContent(v) => d.(content := v)
    case Replace(n) => n
  }

  /** `details.map(d => d.id === id ? edit(d) : d)`. */
  function EditDetails(details: seq<Detail>, id: int, e: DetailEdit): (r: seq<Detail>)
    ensures |r| == |details|
    ensures forall i :: 0 <= i < |details| && details[i].id != id ==> r[i] == details[i]
    ensures forall i :: 0 <= i < |details| && details[i].id == id ==> r[i] == ApplyEdit(details[i], e)
  {
    if details == [] then []
    else [if details[0].id == id then ApplyEdit(details[0], e) else details[0]]
         + EditDetails(details[1..], id, e)
  }

  // ---------------------------------------------------------------- numbering children

  /** `xs.filter(x => key(x) === parent).length`. */
  function Count<T>(xs: seq<T>, key: T -> int, parent: int): (n: nat)
    ensures n <= |xs|
  {
    if xs == [] then 0
    else Count(xs[..|xs| - 1], key, parent) + (if key(xs[|xs| - 1]) == parent then 1 else 0)
  }

  /** A longer prefix never has fewer children of a parent. */
  lemma {:induction false} CountPrefixMonotone<T>(xs: seq<T>, key: T -> int, parent: int, i: nat, j: nat)
    requires i <= j <= |xs|
    ensures Count(xs[..i], key, parent) <= Count(xs[..j], key, parent)
    decreases j - i
  {
    if i < j {
      CountPrefixMonotone(xs, key, parent, i, j - 1);
      assert xs[..j][..j - 1] == xs[..j - 1];
    }
  }

  /** The ordinal of `xs[i]` among its siblings: one more than the siblings before it. */
  function Ordinal<T>(xs: seq<T>, key: T -> int, i: nat): nat
    requires i < |xs|
  {
    Count(xs[..i], key, key(xs[i])) + 1
  }

  /**
   * Every element's `index` is the decimal ordinal it got when it was
   * appended: one more than the number of earlier siblings.
   */
  ghost predicate Numbered<T>(xs: seq<T>, key: T -> int, index: T -> string)
  {
    forall i :: 0 <= i < |xs| ==> index(xs[i]) == NatToString(Ordinal(xs, key, i))
  }

  /** Appending leaves the ordinals of the earlier elements alone; the new one counts all its siblings. */
  lemma OrdinalAppend<T>(xs: seq<T>, key: T -> int, x: T, i: nat)
    requires i <= |xs|
    ensures i < |xs| ==> Ordinal(xs + [x], key, i) == Ordinal(xs, key, i)
    ensures i == |xs| ==> Ordinal(xs + [x], key, i) == Count(xs, key, key(x)) + 1
  {
    var ys := xs + [x];
    if i < |xs| {
      assert ys[i] == xs[i] && ys[..i] == xs[..i];
    } else {
      assert ys[i] == x && ys[..i] == xs;
    }
  }

  /** Appending a child numbered "siblings + 1" keeps the numbering. */
  lemma AppendKeepsNumbered<T>(xs: seq<T>, key: T -> int, index: T -> string, x: T)
    requires Numbered(xs, key, index)
    requires index(x) == NatToString(Count(xs, key, key(x)) + 1)
    ensures Numbered(xs + [x], key, index)
  {
    var ys := xs + [x];
    forall i | 0 <= i < |ys|
      ensures index(ys[i]) == NatToString(Ordinal(ys, key, i))
    {
      OrdinalAppend(xs, key, x, i);
      if i < |xs| {
        assert ys[i] == xs[i];
      }
    }
  }

  /** Under the numbering, later siblings carry strictly larger ordinals. */
  lemma NumberedOrdinalsIncrease<T>(xs: seq<T>, key: T -> int, i: nat, j: nat)
    requires i < j < |xs| && key(xs[i]) == key(xs[j])
    ensures Ordinal(xs, key, i) < Ordinal(xs, key, j)
  {
    CountPrefixMonotone(xs, key, key(xs[i]), i + 1, j);
    assert xs[..i + 1][..i] == xs[..i];
  }

  function ChapterParent(c: Chapter): int { c.bookId }
  function ChapterIndex(c: Chapter): string { c.index }
  function DetailParent(d: Detail): int { d.chapterId }
  function DetailIndex(d: Detail): string { d.index }

  /** The chapter `handleAddChapter` appends under `bookId`. */
  function NewChapter(chapters: seq<Chapter>, bookId: int, id: int): (c: Chapter)
    ensures c.id == id && c.bookId == bookId && c.videoUrl == []
    ensures c.index == NatToString(Count(chapters, ChapterParent, bookId) + 1)
    ensures c.title == "새로운 챕터 " + c.index
  {
    var next := NatToString(Count(chapters, ChapterParent, bookId) + 1);
    Chapter(id, bookId, next, "새로운 챕터 " + next, "")
  }

  /** The note `handleAddDetail` appends under `chapterId`: pages 1 to 10, empty content. */
  function NewDetail(details: seq<Detail>, chapterId: int, id: int): (d: Detail)
    ensures d.id == id && d.chapterId == chapterId
    ensures d.index == NatToString(Count(details, DetailParent, chapterId) + 1)
    ensures d.title == "세부 항목 " + d.index
    ensures d.startPage == 1 && d.endPage == 10 && d.content == [] && d.videoUrl == []
  {
    var next := NatToString(Count(details, DetailParent, chapterId) + 1);
    Detail(id, chapterId, next, "세부 항목 " + next, 1, 10, "", "")
  }

  /** The book `handleAddBook` appends: 300 pages, no genre, waiting to be read. */
  function NewBook(id: int): (b: Book)
    ensures b.id == id && b.totalPages == 300 && b.category == Genres([])
  {
    Book(id, "새로운 책", "", 300, "대기 중", Genres([]), "", "")
  }

  /** Adding chapters one after another numbers each book's chapters 1, 2, 3, … */
  lemma AddChapterKeepsNumbered(chapters: seq<Chapter>, bookId: int, id: int)
    requires Numbered(chapters, ChapterParent, ChapterIndex)
    ensures Numbered(chapters + [NewChapter(chapters, bookId, id)], ChapterParent, ChapterIndex)
  {
    AppendKeepsNumbered(chapters, ChapterParent, ChapterIndex, NewChapter(chapters, bookId, id));
  }

  /** Adding notes one after another numbers each chapter's notes 1, 2, 3, … */
  lemma AddDetailKeepsNumbered(details: seq<Detail>, chapterId: int, id: int)
    requires Numbered(details, DetailParent, DetailIndex)
    ensures Numbered(details + [NewDetail(details, chapterId, id)], DetailParent, DetailIndex)
  {
    AppendKeepsNumbered(details, DetailParent, DetailIndex, NewDetail(details, chapterId, id));
  }

  // ---------------------------------------------------------------- genres

  predicate NoDup(xs: seq<string>)
  {
    forall i, j :: 0 <= i < j < |xs| ==> xs[i] != xs[j]
  }

  /** `confirmAddGenre`: the trimmed name is added when it is non-empty and new. */
  function AddGenre(genres: seq<string>, name: string): (r: seq<string>)
    ensures forall g :: g in r <==> g in genres || (g == Trim(name) && g != [])
    ensures Trim(name) == [] || Trim(name) in genres ==> r == genres
    ensures Trim(name) != [] && Trim(name) !in genres ==> r == genres + [Trim(name)]
    ensures NoDup(genres) ==> NoDup(r)
  {
    var g := Trim(name);
    if g != [] && g !in genres then
      FreshAppendKeepsNoDup(genres, g);
      genres + [g]
    else genres
  }

  lemma FreshAppendKeepsNoDup(xs: seq<string>, g: string)
    ensures NoDup(xs) && g !in xs ==> NoDup(xs + [g])
  {
    if NoDup(xs) && g !in xs {
      var ys := xs + [g];
      forall i, j | 0 <= i < j < |ys| ensures ys[i] != ys[j] {
        if j < |xs| {
          assert ys[i] == xs[i] && ys[j] == xs[j];
        } else {
          assert ys[i] == xs[i] && ys[j] == g;
        }
      }
    }
  }

  /** The genres `[...new Set(xs)]` keeps: first occurrences, in order, skipping `seen`. */
  function Dedup(xs: seq<string>, seen: set<string>): (r: seq<string>)
    ensures NoDup(r)
    ensures forall g :: g in r <==> g in xs && g !in seen
  {
    if xs == [] then []
    else if xs[0] in seen then Dedup(xs[1..], seen)
    else [xs[0]] + Dedup(xs[1..], seen + {xs[0]})
  }

  /** Deduplicating a concatenation: the second part only keeps what the first lacks. */
  lemma {:induction false} DedupAppend(a: seq<string>, b: seq<string>, seen: set<string>)
    ensures Dedup(a + b, seen) == Dedup(a, seen) + Dedup(b, seen + (set g | g in a))
  {
    if a == [] {
      assert a + b == b;
      assert (set g | g in a) == {};
      assert seen + (set g | g in a) == seen;
    } else {
      assert (a + b)[0] == a[0];
      assert (a + b)[1..] == a[1..] + b;
      if a[0] in seen {
        DedupAppend(a[1..], b, seen);
        assert seen + (set g | g in a[1..]) == seen + (set g | g in a);
      } else {
        DedupAppend(a[1..], b, seen + {a[0]});
        assert seen + {a[0]} + (set g | g in a[1..]) == seen + (set g | g in a);
      }
    }
  }

  /** `.filter(g => g && g !== '')` on genre names. */
  function NonEmpty(xs: seq<string>): (r: seq<string>)
    ensures forall g :: g in r <==> g in xs && g != []
    ensures NoDup(xs) ==> NoDup(r)
  {
    if xs == [] then []
    else if xs[0] == [] then NonEmpty(xs[1..])
    else
      var rest := NonEmpty(xs[1..]);
      assert NoDup(xs) ==> xs[0] !in xs[1..];
      [xs[0]] + rest
  }

  lemma {:induction false} NonEmptyAppend(a: seq<string>, b: seq<string>)
    ensures NonEmpty(a + b) == NonEmpty(a) + NonEmpty(b)
  {
    if a == [] {
      assert a + b == b;
    } else {
      assert (a + b)[1..] == a[1..] + b;
      NonEmptyAppend(a[1..], b);
    }
  }

  /** `Array.isArray(c) ? c : [c]`: a list of genres is taken as it is, a single genre becomes a one-element list. */
  function GenreList(c: Category): (r: seq<string>)
    ensures c.Genres? ==> r == c.names
    ensures c.Single? ==> |r| == 1 && r[0] == c.name
  {
    match c
    case Genres(names) => names
    case Single(name) => [name]
  }

  /** `books.flatMap(b => genre list of b)`. */
  function BookGenres(books: seq<Book>): (r: seq<string>)
    ensures forall g :: g in r <==> exists i :: 0 <= i < |books| && g in GenreList(books[i].category)
  {
    if books == [] then []
    else
      var rest := BookGenres(books[1..]);
      assert forall i :: 1 <= i < |books| ==> books[1..][i - 1] == books[i];
      GenreList(books[0].category) + rest
  }

  /**
   * `usedGenres`: the custom genres and then every book's genres, each name
   * once, empty names dropped.
   */
  function UsedGenres(custom: seq<string>, books: seq<Book>): (r: seq<string>)
    ensures NoDup(r)
    ensures forall g :: g in r ==> g != []
    ensures forall g :: g in r <==> g != [] && (g in custom || g in BookGenres(books))
  {
    NonEmpty(Dedup(custom + BookGenres(books), {}))
  }

  /** The custom genres come first, in their own order; the books only add names not already listed. */
  lemma UsedGenresCustomFirst(custom: seq<string>, books: seq<Book>)
    ensures UsedGenres(custom, books)
            == NonEmpty(Dedup(custom, {})) + NonEmpty(Dedup(BookGenres(books), set g | g in custom))
  {
    DedupAppend(custom, BookGenres(books), {});
    assert {} + (set g | g in custom) == (set g | g in custom);
    NonEmptyAppend(Dedup(custom, {}), Dedup(BookGenres(books), set g | g in custom));
  }

  /** A duplicate-free, blank-free custom list is listed exactly as it is. */
  lemma {:induction false} DedupClean(xs: seq<string>, seen: set<string>)
    requires NoDup(xs) && forall g :: g in xs ==> g !in seen
    ensures Dedup(xs, seen) == xs
  {
    if xs != [] {
      assert xs[0] !in xs[1..];
      DedupClean(xs[1..], seen + {xs[0]});
    }
  }

  lemma {:induction false} NonEmptyClean(xs: seq<string>)
    requires forall i :: 0 <= i < |xs| ==> xs[i] != []
    ensures NonEmpty(xs) == xs
  {
    if xs != [] {
      assert forall i :: 0 <= i < |xs| - 1 ==> xs[1..][i] == xs[i + 1];
      NonEmptyClean(xs[1..]);
    }
  }

  /**
   * A custom list kept duplicate-free and blank-free (as `confirmAddGenre`
   * keeps it) opens the used genres unchanged.
   */
  lemma UsedGenresStartWithCustom(custom: seq<string>, books: seq<Book>)
    requires NoDup(custom) && forall i :: 0 <= i < |custom| ==> custom[i] != []
    ensures |custom| <= |UsedGenres(custom, books)|
    ensures UsedGenres(custom, books)[..|custom|] == custom
  {
    UsedGenresCustomFirst(custom, books);
    DedupClean(custom, {});
    NonEmptyClean(custom);
  }
}
