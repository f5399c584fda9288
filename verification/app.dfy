/**
 * The reading-notes component's state and handlers. Every `useState` slot
 * the handlers touch is a field; each handler is a method whose frame names
 * exactly the slots it sets. The search effect, which React re-runs whenever
 * the query or a collection changes, is folded into every method that
 * changes one of them, so the results always match the current state.
 */
module BookNoteApp {
  import opened Wrappers
  import opened Text
  import opened Entities
  import opened Spelling
  import opened Search

  /** `viewMode`: 'shelf', 'chapters', 'details' or 'editor'. */
  datatype ViewMode = Shelf | ChapterList | DetailList | Editor

  /** What the spelling panel shows. */
  datatype SpellMessage = Silent | Reported(verdict: Verdict) | AppliedToNote

  /** How `confirmAddUser` ended: closed the empty form, refused an existing name, or created the library. */
  datatype AddUserOutcome = Dismissed | AlreadyExists | Created

  class BookNote {
    /** `databases`: absent until the first library is set up. */
    var registry: Option<map<string, Library>>
    var currentLibrary: string
    var books: seq<Book>
    var chapters: seq<Chapter>
    var details: seq<Detail>
    var customGenres: seq<string>
    var viewMode: ViewMode
    var selectedBook: Option<Book>
    var selectedChapter: Option<Chapter>
    var selectedDetail: Option<Detail>
    var editingBookId: Option<int>
    var searchQuery: string
    var searchResults: seq<SearchResult>
    var spellCorrection: string
    var spellMessage: SpellMessage

    /** The current library names an entry of the registry, and the search results are current. */
    ghost predicate Valid()
      reads this
    {
      (registry.Some? ==> currentLibrary in registry.value)
      && searchResults == SearchSpec(searchQuery, books, chapters, details)
    }

    /** The four collections being edited, as they would be stored. */
    function Active(): Library
      reads this`books, this`chapters, this`details, this`customGenres
    {
      Library(books, chapters, details, customGenres)
    }

    /** The state before anything is loaded: no registry, empty collections, the shelf. */
    constructor ()
      ensures Valid()
      ensures registry.None? && currentLibrary == [] && Active() == EmptyLibrary
      ensures viewMode == Shelf && selectedBook.None? && selectedChapter.None? && selectedDetail.None?
      ensures editingBookId.None? && searchQuery == [] && searchResults == []
      ensures spellCorrection == [] && spellMessage == Silent
    {
      registry := None;
      currentLibrary := "";
      books := [];
      chapters := [];
      details := [];
      customGenres := [];
      viewMode := Shelf;
      selectedBook := None;
      selectedChapter := None;
      selectedDetail := None;
      editingBookId := None;
      searchQuery := "";
      searchResults := [];
      spellCorrection := "";
      spellMessage := Silent;
      EmptyQueryFindsNothing([], [], []);
    }

    /** The search effect: recomputes the results from the query and the collections. */
    method RefreshSearch()
      modifies this`searchResults
      ensures searchResults == SearchSpec(searchQuery, books, chapters, details)
    {
      searchResults := RunSearch(searchQuery, books, chapters, details);
    }

    // ------------------------------------------------------------ the registry

    /**
     * `handleInitialSetup`: a blank name is refused; otherwise the registry
     * becomes one empty library under the trimmed name, which becomes current.
     */
    method InitialSetup(setupName: string) returns (ok: bool)
      requires Valid()
      modifies this`registry, this`currentLibrary
      ensures Valid()
      ensures ok <==> !IsBlank(setupName)
      ensures ok ==> registry == Some(map[Trim(setupName) := EmptyLibrary]) && currentLibrary == Trim(setupName)
      ensures !ok ==> registry == old(registry) && currentLibrary == old(currentLibrary)
    {
      if IsBlank(setupName) {
        return false;
      }
      var name := Trim(setupName);
      registry := Some(map[name := EmptyLibrary]);
      currentLibrary := name;
      ok := true;
    }

    /** `saveData`: folds the active collections into the registry under the current name. */
    method SaveData()
      requires Valid()
      modifies this`registry
      ensures Valid()
      ensures old(registry).None? ==> registry.None?
      ensures old(registry).Some? ==> registry == Some(old(registry).value[currentLibrary := Active()])
    {
      if registry.None? {
        return;
      }
      registry := Some(registry.value[currentLibrary := Active()]);
    }

    /**
     * `loadLibrary(owner)`: the active collections are stored under the
     * current name, and the collections `owner` had before that store are
     * loaded; the shelf is shown with no book selected.
     */
    method LoadLibrary(owner: string)
      requires Valid() && registry.Some? && owner in registry.value
      modifies this`registry, this`currentLibrary, this`books, this`chapters, this`details,
               this`customGenres, this`viewMode, this`selectedBook, this`searchResults
      ensures Valid()
      ensures registry == Some(old(registry).value[old(currentLibrary) := old(Active())])
      ensures currentLibrary == owner
      ensures Active() == old(registry).value[owner]
      ensures viewMode == Shelf && selectedBook.None?
    {
      var target := registry.value[owner];
      registry := Some(registry.value[currentLibrary := Active()]);
      currentLibrary := owner;
      books := target.books;
      chapters := target.chapters;
      details := target.details;
      customGenres := target.customGenres;
      viewMode := Shelf;
      selectedBook := None;
      RefreshSearch();
    }

    /**
     * `confirmAddUser`: a blank name closes the form; a name already in the
     * registry is refused; otherwise the active collections are stored under
     * the current name, an empty library is added under the new name and
     * becomes current, and the shelf is shown.
     */
    method ConfirmAddUser(newUserName: string) returns (outcome: AddUserOutcome)
      requires Valid() && (registry.Some? || IsBlank(newUserName))
      modifies this`registry, this`currentLibrary, this`books, this`chapters, this`details,
               this`customGenres, this`viewMode, this`searchResults
      ensures Valid()
      ensures outcome == Dismissed <==> IsBlank(newUserName)
      ensures outcome == AlreadyExists <==> !IsBlank(newUserName) && Trim(newUserName) in old(registry).value
      ensures outcome != Created ==>
                registry == old(registry) && currentLibrary == old(currentLibrary)
                && Active() == old(Active()) && viewMode == old(viewMode)
                && searchResults == old(searchResults)
      ensures outcome == Created ==>
                registry == Some(old(registry).value[old(currentLibrary) := old(Active())]
                                                    [Trim(newUserName) := EmptyLibrary])
                && currentLibrary == Trim(newUserName) && Active() == EmptyLibrary && viewMode == Shelf
    {
      if IsBlank(newUserName) {
        return Dismissed;
      }
      var name := Trim(newUserName);
      if name in registry.value {
        return AlreadyExists;
      }
      CreateLibrary(name);
      outcome := Created;
    }

    /**
     * The creating half of `confirmAddUser`: stores the active collections
     * under the current name, adds an empty library under `name`, makes it
     * current and shows the shelf.
     */
    method CreateLibrary(name: string)
      requires Valid() && registry.Some? && name !in registry.value
      modifies this`registry, this`currentLibrary, this`books, this`chapters, this`details,
               this`customGenres, this`viewMode, this`searchResults
      ensures Valid()
      ensures registry == Some(old(registry).value[old(currentLibrary) := old(Active())][name := EmptyLibrary])
      ensures currentLibrary == name && Active() == EmptyLibrary && viewMode == Shelf
    {
      registry := Some(registry.value[currentLibrary := Active()][name := EmptyLibrary]);
      currentLibrary := name;
      books := [];
      chapters := [];
      details := [];
      customGenres := [];
      viewMode := Shelf;
      assert Active() == EmptyLibrary;
      RefreshSearch();
    }

    // ------------------------------------------------------------ books, chapters, notes

    /** `confirmAddGenre`: the trimmed name joins the custom genres when it is non-empty and new. */
    method ConfirmAddGenre(newGenreName: string)
      modifies this`customGenres
      ensures customGenres == AddGenre(old(customGenres), newGenreName)
      ensures NoDup(old(customGenres)) ==> NoDup(customGenres)
      ensures (forall g :: g in old(customGenres) ==> g != []) ==> forall g :: g in customGenres ==> g != []
    {
      var gName := Trim(newGenreName);
      if gName != [] && gName !in customGenres {
        customGenres := customGenres + [gName];
      }
    }

    /**
     * `updateBook(id, updates)`: the books with that id are patched, and so
     * is the selected book when it has that id.
     */
    method UpdateBook(id: int, updates: BookPatch)
      requires Valid()
      modifies this`books, this`selectedBook, this`searchResults
      ensures Valid()
      ensures books == UpdateBooks(old(books), id, updates)
      ensures old(selectedBook).Some? && old(selectedBook).value.id == id ==>
                selectedBook == Some(ApplyPatch(old(selectedBook).value, updates))
      ensures !(old(selectedBook).Some? && old(selectedBook).value.id == id) ==> selectedBook == old(selectedBook)
    {
      books := UpdateBooks(books, id, updates);
      if selectedBook.Some? && selectedBook.value.id == id {
        selectedBook := Some(ApplyPatch(selectedBook.value, updates));
      }
      RefreshSearch();
    }

    /** `handleAddBook`: appends a new book with the given id and opens its title for editing. */
    method AddBook(id: int)
      requires Valid()
      modifies this`books, this`editingBookId, this`searchResults
      ensures Valid()
      ensures books == old(books) + [NewBook(id)] && editingBookId == Some(id)
    {
      books := books + [NewBook(id)];
      editingBookId := Some(id);
      RefreshSearch();
    }

    /**
     * `handleAddChapter`: without a selected book nothing happens; otherwise
     * one chapter is appended, numbered one past the book's existing chapters.
     */
    method AddChapter(id: int)
      requires Valid()
      modifies this`chapters, this`searchResults
      ensures Valid()
      ensures selectedBook.None? ==> chapters == old(chapters)
      ensures selectedBook.Some? ==> chapters == old(chapters) + [NewChapter(old(chapters), selectedBook.value.id, id)]
      ensures Numbered(old(chapters), ChapterParent, ChapterIndex) ==> Numbered(chapters, ChapterParent, ChapterIndex)
    {
      if selectedBook.None? {
        return;
      }
      ghost var before := chapters;
      chapters := chapters + [NewChapter(chapters, selectedBook.value.id, id)];
      if Numbered(before, ChapterParent, ChapterIndex) {
        AddChapterKeepsNumbered(before, selectedBook.value.id, id);
      }
      RefreshSearch();
    }

    /**
     * `handleAddDetail`: without a selected chapter nothing happens;
     * otherwise one note is appended, numbered one past the chapter's notes.
     */
    method AddDetail(id: int)
      requires Valid()
      modifies this`details, this`searchResults
      ensures Valid()
      ensures selectedChapter.None? ==> details == old(details)
      ensures selectedChapter.Some? ==> details == old(details) + [NewDetail(old(details), selectedChapter.value.id, id)]
      ensures Numbered(old(details), DetailParent, DetailIndex) ==> Numbered(details, DetailParent, DetailIndex)
    {
      if selectedChapter.None? {
        return;
      }
      ghost var before := details;
      details := details + [NewDetail(details, selectedChapter.value.id, id)];
      if Numbered(before, DetailParent, DetailIndex) {
        AddDetailKeepsNumbered(before, selectedChapter.value.id, id);
      }
      RefreshSearch();
    }

    /** `handleRename`: retitles the books with that id and closes the title editor. */
    method Rename(id: int, newName: string)
      requires Valid()
      modifies this`books, this`editingBookId, this`searchResults
      ensures Valid()
      ensures books == UpdateBooks(old(books), id, TitlePatch(newName)) && editingBookId.None?
    {
      books := UpdateBooks(books, id, TitlePatch(newName));
      editingBookId := None;
      RefreshSearch();
    }

    /**
     * `handleDeleteBook`: removes the books with that id, keeps their chapters
     * and notes, and shows the shelf.
     */
    method DeleteBook(id: int)
      requires Valid()
      modifies this`books, this`viewMode, this`searchResults
      ensures Valid()
      ensures books == WithoutBook(old(books), id) && viewMode == Shelf
      ensures forall b :: b in books ==> b.id != id
    {
      books := WithoutBook(books, id);
      viewMode := Shelf;
      RefreshSearch();
    }

    /**
     * The note editor's page, title and content fields: the selected note
     * and every note with its id get the new value.
     */
    method EditSelectedDetail(edit: DetailEdit)
      requires Valid() && selectedDetail.Some? && !edit.Replace?
      modifies this`details, this`selectedDetail, this`searchResults
      ensures Valid()
      ensures selectedDetail == Some(ApplyEdit(old(selectedDetail).value, edit))
      ensures details == EditDetails(old(details), old(selectedDetail).value.id, edit)
    {
      details := EditDetails(details, selectedDetail.value.id, edit);
      selectedDetail := Some(ApplyEdit(selectedDetail.value, edit));
      RefreshSearch();
    }

    /**
     * `handleVideoUpdate`: in the editor, the selected note takes the new
     * link and replaces every note with its id.
     */
    method VideoUpdate(url: string)
      requires Valid()
      modifies this`details, this`selectedDetail, this`searchResults
      ensures Valid()
      ensures !(old(viewMode) == Editor && old(selectedDetail).Some?) ==>
                details == old(details) && selectedDetail == old(selectedDetail)
      ensures old(viewMode) == Editor && old(selectedDetail).Some? ==>
                var note := old(selectedDetail).value.(videoUrl := url);
                selectedDetail == Some(note) && details == EditDetails(old(details), note.id, Replace(note))
    {
      if viewMode == Editor && selectedDetail.Some? {
        var note := selectedDetail.value.(videoUrl := url);
        selectedDetail := Some(note);
        details := EditDetails(details, note.id, Replace(note));
        RefreshSearch();
      }
    }

    // ------------------------------------------------------------ spelling

    /**
     * `handleRunSpellCheck`, once its delay has passed: a selected note with
     * content gets its corrected text proposed, and the message says whether
     * anything changed.
     */
    method RunSpellCheck()
      modifies this`spellCorrection, this`spellMessage
      ensures selectedDetail.None? || selectedDetail.value.content == [] ==>
                spellCorrection == old(spellCorrection) && spellMessage == old(spellMessage)
      ensures selectedDetail.Some? && selectedDetail.value.content != [] ==>
                spellCorrection == Correct(selectedDetail.value.content)
                && spellMessage == Reported(Check(selectedDetail.value.content))
                && (spellMessage == Reported(NoTyposFound) <==> spellCorrection == selectedDetail.value.content)
    {
      if selectedDetail.None? || selectedDetail.value.content == [] {
        return;
      }
      var content := selectedDetail.value.content;
      spellCorrection := Correct(content);
      spellMessage := Reported(Check(content));
    }

    /**
     * `applySpellCorrection`: in the editor, the proposed text becomes the
     * selected note's content, in the note list too.
     */
    method ApplySpellCorrection()
      requires Valid()
      modifies this`details, this`selectedDetail, this`spellMessage, this`searchResults
      ensures Valid()
      ensures !(old(selectedDetail).Some? && old(viewMode) == Editor) ==>
                details == old(details) && selectedDetail == old(selectedDetail) && spellMessage == old(spellMessage)
      ensures old(selectedDetail).Some? && old(viewMode) == Editor ==>
                var note := old(selectedDetail).value.(content := spellCorrection);
                selectedDetail == Some(note) && details == EditDetails(old(details), note.id, Replace(note))
                && spellMessage == AppliedToNote
    {
      if selectedDetail.None? || viewMode != Editor {
        return;
      }
      var note := selectedDetail.value.(content := spellCorrection);
      details := EditDetails(details, note.id, Replace(note));
      selectedDetail := Some(note);
      spellMessage := AppliedToNote;
      RefreshSearch();
    }

    // ------------------------------------------------------------ search and navigation

    /** Typing in the search box: the query changes and the results follow it. */
    method SetSearchQuery(query: string)
      requires Valid()
      modifies this`searchQuery, this`searchResults
      ensures Valid() && searchQuery == query
      ensures searchResults == SearchSpec(query, books, chapters, details)
    {
      searchQuery := query;
      RefreshSearch();
    }

    /**
     * `handleSearchResultClick`: opens the clicked book, chapter or note
     * together with its ancestors. For a note, the note and its chapter must
     * still exist (the source dereferences both).
     */
    method SearchResultClick(result: SearchResult)
      requires Valid()
      requires result.DetailHit? ==>
                 FindDetail(details, result.id).Some?
                 && FindChapter(chapters, FindDetail(details, result.id).value.chapterId).Some?
      modifies this`selectedBook, this`selectedChapter, this`selectedDetail, this`viewMode
      ensures Valid()
      ensures result.BookHit? ==>
                selectedBook == FindBook(books, result.id) && viewMode == ChapterList
                && selectedChapter == old(selectedChapter) && selectedDetail == old(selectedDetail)
      ensures result.ChapterHit? ==>
                selectedBook == FindBook(books, result.bookId) && selectedChapter == FindChapter(chapters, result.id)
                && viewMode == DetailList && selectedDetail == old(selectedDetail)
      ensures result.DetailHit? ==>
                var note := FindDetail(details, result.id).value;
                var chapter := FindChapter(chapters, note.chapterId).value;
                selectedDetail == Some(note) && selectedChapter == Some(chapter)
                && selectedBook == FindBook(books, chapter.bookId) && viewMode == Editor
      ensures result in searchResults && result.BookHit? ==>
                selectedBook.Some? && selectedBook.value.id == result.id
      ensures result in searchResults && result.DetailHit? ==>
                selectedDetail.Some? && selectedDetail.value.id == result.id
    {
      if result in searchResults {
        ListedHitExists(searchQuery, books, chapters, details, result);
      }
      match result
      case BookHit(id, _, _) =>
        selectedBook := FindBook(books, id);
        viewMode := ChapterList;
      case ChapterHit(id, bookId, _) =>
        selectedBook := FindBook(books, bookId);
        selectedChapter := FindChapter(chapters, id);
        viewMode := DetailList;
      case DetailHit(id, _, _) =>
        var note := FindDetail(details, id).value;
        var chapter := FindChapter(chapters, note.chapterId).value;
        selectedBook := FindBook(books, chapter.bookId);
        selectedChapter := Some(chapter);
        selectedDetail := Some(note);
        viewMode := Editor;
    }

    /** Clicking a book on the shelf or in the genre tree opens its chapter list. */
    method OpenBook(book: Book)
      modifies this`selectedBook, this`viewMode
      ensures selectedBook == Some(book) && viewMode == ChapterList
    {
      selectedBook := Some(book);
      viewMode := ChapterList;
    }

    /** Clicking a chapter opens its note list. */
    method OpenChapter(chapter: Chapter)
      modifies this`selectedChapter, this`viewMode
      ensures selectedChapter == Some(chapter) && viewMode == DetailList
    {
      selectedChapter := Some(chapter);
      viewMode := DetailList;
    }

    /** Clicking a note opens the editor on it. */
    method OpenDetail(note: Detail)
      modifies this`selectedDetail, this`viewMode
      ensures selectedDetail == Some(note) && viewMode == Editor
    {
      selectedDetail := Some(note);
      viewMode := Editor;
    }

    /** The "library" breadcrumb: back to the shelf, no book selected. */
    method GoShelf()
      modifies this`selectedBook, this`viewMode
      ensures selectedBook.None? && viewMode == Shelf
    {
      viewMode := Shelf;
      selectedBook := None;
    }

    /** The book breadcrumb: back to its chapter list, no chapter selected. */
    method GoChapters()
      modifies this`selectedChapter, this`viewMode
      ensures selectedChapter.None? && viewMode == ChapterList
    {
      viewMode := ChapterList;
      selectedChapter := None;
    }
  }

  /**
   * Switching to another library and back, with no edits in between,
   * brings the collections back as they were.
   */
  method SwitchAwayAndBack(app: BookNote, other: string)
    requires app.Valid() && app.registry.Some? && other in app.registry.value
    requires other != app.currentLibrary
    modifies app
    ensures app.Valid()
    ensures app.currentLibrary == old(app.currentLibrary) && app.Active() == old(app.Active())
    ensures app.registry.Some? && other in app.registry.value
    ensures app.registry.value[other] == old(app.registry).value[other]
  {
    var home := app.currentLibrary;
    app.LoadLibrary(other);
    app.LoadLibrary(home);
  }

  /**
   * A library created with `confirmAddUser` starts empty, and returning to
   * the previous library finds its collections as they were.
   */
  method NewLibraryThenBack(app: BookNote, name: string)
    requires app.Valid() && app.registry.Some?
    requires !IsBlank(name) && Trim(name) !in app.registry.value
    modifies app
    ensures app.Valid()
    ensures app.currentLibrary == old(app.currentLibrary) && app.Active() == old(app.Active())
    ensures app.registry.Some? && Trim(name) in app.registry.value
    ensures app.registry.value[Trim(name)] == EmptyLibrary
  {
    var home := app.currentLibrary;
    var outcome := app.ConfirmAddUser(name);
    assert outcome == Created;
    app.LoadLibrary(home);
  }
}
