# BookNote reading-notes model

BookNote is a single-page reading-notes application. Each named library
holds its own lists:
- books, each with a page count, a status, genres and a cover,
- chapters under each book,
- notes ("details") under each chapter, each covering a page range and holding free text and an optional YouTube link,
- a list of custom genre names.

The libraries live together in one registry, which is stored as a whole.

This project models the state and the handlers of the application
component (`booknote/src/App.js`) in Dafny and proves what they promise:

- `Text`: the JavaScript `trim` (with the JavaScript whitespace set), an ASCII `toLowerCase`, substring search (`includes`), and decimal rendering of counts.
- `Youtube`: `getYoutubeId`, with its regular expression modelled by hand. It is proved equal to a declarative reading: the last marker on the first line, followed by a run of exactly 11 id characters.
- `Spelling`: the chain of seven global replacements used by the spelling check. It is proved to change a text exactly when one of the seven typos occurs in it.
- `Entities`: books, chapters, notes and libraries, and the pure list updates behind the handlers. These are patching by id, deleting, appending numbered chapters and notes, and the custom and used genre lists.
- `Progress`: `calculateProgress`, with `Math.round` computed exactly on integers.
- `Search`: the search effect. A loop-based method is proved equal to a specification function, and lemmas cover membership, ordering and case-insensitivity.
- `BookNoteApp`: a class `BookNote` whose fields are the component's state slots. There is one method per handler, and each method's frame names exactly the slots that handler sets. The invariant `Valid()` has two parts:
  - the current library names a registry entry;
  - the search results equal the search over the current state, because the search effect is re-run by every method that changes the query or a collection.

Identifiers that the source takes from `Date.now()` become method parameters.

## Model

| member | source | states |
|---|---|---|
| Text.TrimStart | booknote/src/App.js:97 | the result is a suffix of the input; the prefix dropped is all whitespace; the result does not start with whitespace |
| Text.TrimEnd | booknote/src/App.js:97 | the result is a prefix of the input; the suffix dropped is all whitespace; the result does not end with whitespace |
| Text.Trim | booknote/src/App.js:97 | only leading and trailing whitespace is dropped: the result occurs in the input with nothing but whitespace before and after it; it is empty exactly when the input is all whitespace; otherwise it begins and ends with a non-whitespace character |
| Text.IsBlank | booknote/src/App.js:96 | the empty string counts as blank |
| Text.IsBlankIffTrimEmpty | booknote/src/App.js:96 | `!s.trim()` holds exactly when the trimmed text is empty |
| Text.Lower | booknote/src/App.js:158 | same length as the input, with each character lower-cased on its own |
| Text.LowerKeepsBlankness | booknote/src/App.js:157-158 | lower-casing is idempotent and neither makes nor unmakes a blank query |
| Text.StartsWith | booknote/src/App.js:160 | the character-by-character prefix test holds exactly when the query occurs at position 0 |
| Text.Includes | booknote/src/App.js:160 | the empty query is always included, and an included query is no longer than the text |
| Text.IncludesIff | booknote/src/App.js:160 | `includes` holds exactly when the query occurs at some position |
| Text.NatToString | booknote/src/App.js:230 | `toString()` of a count is a non-empty string of decimal digits whose decimal value is the count, with no leading zero, and one digit exactly below 10 |
| Youtube.MarkerLength | booknote/src/App.js:13 | a marker found at a position fits inside the link |
| Youtube.MarkerNeedsStart | booknote/src/App.js:13 | a marker starts with one of the seven alternatives' first characters |
| Youtube.LineEnd | booknote/src/App.js:13 | the end of the first line: no line terminator before it, and a line terminator at it unless it is the end of the link |
| Youtube.LastMarker | booknote/src/App.js:13 | the greedy `^.*` settles on the last marker position up to the bound, with none after it; none at all when it finds none |
| Youtube.RunEnd | booknote/src/App.js:13 | the second group is the longest run without `#`, `&` or `?` |
| Youtube.GetYoutubeId | booknote/src/App.js:11-16 | a missing or empty link gives no id; an id has exactly 11 characters, none of them `#`, `&` or `?`, and it occurs in the link |
| Youtube.DecidingMarkerIsLast | booknote/src/App.js:13-14 | the deciding marker is the one the greedy prefix reaches |
| Youtube.RunIsCaptured | booknote/src/App.js:13-15 | a whole 11-character run after a marker is exactly what the group captures |
| Youtube.GetYoutubeIdSound | booknote/src/App.js:11-16 | a returned id is a whole 11-character run after the deciding marker |
| Youtube.GetYoutubeIdComplete | booknote/src/App.js:11-16 | a whole 11-character run after the deciding marker is returned |
| Youtube.GetYoutubeIdSpec | booknote/src/App.js:11-16 | both directions: an id is returned exactly when the last marker of the first line is followed by a whole 11-character run equal to it |
| Youtube.DecidingRunSettles | booknote/src/App.js:13-15 | only the run after the last marker matters: an id comes back exactly when that run has length 11 |
| Youtube.MarkerLengthShift | booknote/src/App.js:13 | whether a marker starts at a position depends only on the text from there on |
| Youtube.WatchMarkerAlone | booknote/src/App.js:13 | `watch?v=` before a marker-free id is the only marker in the text |
| Youtube.WatchLinkYieldsId | booknote/src/App.js:11-16 | any single-line prefix followed by `watch?v=` and a marker-free 11-character id yields that id |
| Spelling.ReplaceAll | booknote/src/App.js:200 | a text without the pattern comes back unchanged, and a replacement at least as long as the pattern never shortens the text |
| Spelling.WeightAppend | booknote/src/App.js:200 | the weight of a concatenation is the sum of the weights |
| Spelling.ReplaceAllWeight | booknote/src/App.js:200 | a replacement with a heavier text never lowers the weight, and raises it exactly when the pattern occurs |
| Spelling.ApplyAllUnchangedIff | booknote/src/App.js:200-201 | a chain of growing replacements leaves the text unchanged exactly when no pattern occurs in it |
| Spelling.SameLengthFixesGrow | booknote/src/App.js:200 | the three same-length corrections are heavier than their typos |
| Spelling.LongerFixesGrow | booknote/src/App.js:200 | the four spacing corrections are heavier than their typos |
| Spelling.CorrectionsGrow | booknote/src/App.js:200 | the seven corrections form a table of non-empty, growing replacements |
| Spelling.CorrectIsTable | booknote/src/App.js:200 | the explicit seven-step chain equals folding the correction table |
| Spelling.Correct | booknote/src/App.js:199-200 | no correction shortens the note, and a note without any of the seven typos comes back unchanged |
| Spelling.Check | booknote/src/App.js:200-202 | both directions: "no typos found" exactly when none of the seven typos occurs, and exactly when the corrected text equals the note |
| Spelling.ReplaceAllSkips | booknote/src/App.js:200 | text before the pattern's first character passes through unchanged |
| Spelling.ReplaceAllHits | booknote/src/App.js:200 | a leading occurrence is replaced and the scan goes on after it |
| Spelling.CorrectExample | booknote/src/App.js:199-200 | "어떡해 재밋다" is corrected to "어떻게 해 재밌다" |
| Spelling.CorrectExampleIsFixedPoint | booknote/src/App.js:200-202 | correcting the corrected example changes nothing; the typo text is reported as corrected and the fixed text as free of typos |
| Entities.FirstWith | booknote/src/App.js:167 | `find`: the first position whose id matches, with no match before it |
| Entities.Find | booknote/src/App.js:167-172 | `find` returns nothing exactly when no element has the id, otherwise the first element of the list with that id |
| Entities.ApplyPatch | booknote/src/App.js:228 | `{ ...b, ...updates }`: each field given in the updates replaces the book's field, every other field is kept, and empty updates change nothing |
| Entities.ApplyPatchIdempotent | booknote/src/App.js:228 | spreading the same updates twice is the same as once |
| Entities.UpdateBooks | booknote/src/App.js:228 | same length; books with another id are untouched; books with the id are patched |
| Entities.UpdateAbsentId | booknote/src/App.js:228 | updating an id no book has changes nothing |
| Entities.UpdateBooksIdempotent | booknote/src/App.js:228 | repeating an update is harmless when the updates keep the id |
| Entities.RenameTouchesOnlyTitles | booknote/src/App.js:232 | renaming sets the title of exactly the books with that id and changes no other field |
| Entities.WithoutBook | booknote/src/App.js:233 | a book remains exactly when it was there and has another id |
| Entities.WithoutBookAppend | booknote/src/App.js:233 | the filter works element by element over concatenations |
| Entities.WithoutAbsentBook | booknote/src/App.js:233 | deleting an id no book has changes nothing |
| Entities.EditDetails | booknote/src/App.js:380-384 | same length; notes with another id are untouched; notes with the id receive the edit |
| Entities.Count | booknote/src/App.js:230 | the number of children of a parent is at most the list length |
| Entities.CountPrefixMonotone | booknote/src/App.js:230-231 | a longer prefix never has fewer children of a parent |
| Entities.OrdinalAppend | booknote/src/App.js:230-231 | appending keeps the existing ordinals and gives the new element one past its parent's count |
| Entities.AppendKeepsNumbered | booknote/src/App.js:230-231 | appending an element whose index is one past its parent's count keeps every index equal to its ordinal |
| Entities.NumberedOrdinalsIncrease | booknote/src/App.js:230-231 | later children of the same parent have strictly larger ordinals |
| Entities.NewChapter | booknote/src/App.js:230 | the new chapter has the given id and book, index one past that book's chapter count, and title "새로운 챕터 " followed by the index |
| Entities.NewDetail | booknote/src/App.js:231 | the new note has index one past its chapter's note count, title "세부 항목 " followed by it, pages 1 to 10 and empty content |
| Entities.NewBook | booknote/src/App.js:229 | the new book has the given id, 300 pages and no genres |
| Entities.AddChapterKeepsNumbered | booknote/src/App.js:230 | adding a chapter keeps chapter numbering per book consistent |
| Entities.AddDetailKeepsNumbered | booknote/src/App.js:231 | adding a note keeps note numbering per chapter consistent |
| Entities.AddGenre | booknote/src/App.js:148-154 | the genres gain exactly the trimmed name, when it is non-empty and new; a blank or already present name leaves them unchanged; no duplicates appear |
| Entities.FreshAppendKeepsNoDup | booknote/src/App.js:151 | appending a name not yet present keeps the list duplicate-free |
| Entities.Dedup | booknote/src/App.js:234 | `new Set` keeps the first of each name and nothing already seen, without duplicates |
| Entities.DedupAppend | booknote/src/App.js:234 | deduplicating a concatenation deduplicates the second part against the first |
| Entities.NonEmpty | booknote/src/App.js:234 | the filter keeps exactly the non-empty names |
| Entities.NonEmptyAppend | booknote/src/App.js:234 | the filter works element by element over concatenations |
| Entities.GenreList | booknote/src/App.js:234 | a list category gives its own names, a single category a one-name list |
| Entities.BookGenres | booknote/src/App.js:234 | `flatMap` lists exactly the genres of the books |
| Entities.UsedGenres | booknote/src/App.js:234 | the used genres are duplicate-free and non-empty; a name is listed exactly when it is a custom genre or a book's genre |
| Entities.UsedGenresCustomFirst | booknote/src/App.js:234 | the custom genres come first, then the book genres not already listed |
| Entities.DedupClean | booknote/src/App.js:234 | a duplicate-free list with nothing seen is kept as is |
| Entities.NonEmptyClean | booknote/src/App.js:234 | a list without empty names is kept as is |
| Entities.UsedGenresStartWithCustom | booknote/src/App.js:234 | duplicate-free, non-empty custom genres are the exact beginning of the used genres |
| Progress.ChapterIdsOf | booknote/src/App.js:226 | an id is listed exactly when a chapter of the book has it |
| Progress.RoundedPercent | booknote/src/App.js:226 | `Math.round(100 w / P)`: within half a percent of the exact value, halves rounded up |
| Progress.RoundedPercentAtLeast | booknote/src/App.js:226 | the rounded value reaches k exactly when 100 w / P reaches k - 1/2 |
| Progress.RoundedPercentMonotone | booknote/src/App.js:226 | rounding keeps the order of written page counts |
| Progress.RoundedPercentOfNothing | booknote/src/App.js:226 | zero written pages round to zero |
| Progress.CalculateProgress | booknote/src/App.js:226 | at most 100; 0 for an unknown book or a page count of 0 or less; otherwise 100 exactly when the written share reaches 99.5%, and below that the nearest whole percentage |
| Progress.WrittenPages | booknote/src/App.js:226 | with no counted note the sum is 0, and with no reversed page range it is never negative |
| Progress.Written | booknote/src/App.js:226 | a book with no chapters has no written pages |
| Progress.WrittenPagesAppend | booknote/src/App.js:226 | a new note adds its page span exactly when it belongs to the book and has content |
| Progress.ProgressMonotone | booknote/src/App.js:226 | adding a note with a non-negative span never lowers any book's progress |
| Progress.NoWrittenNotesNoProgress | booknote/src/App.js:226 | a book none of whose notes has content shows 0 |
| Progress.OneNoteShelf | booknote/src/App.js:226 | one book, one chapter and one note with content give the rounded share of the note's span |
| Progress.TenOfThreeHundredPages | booknote/src/App.js:226 | pages 1 to 10 of a 300-page book give 3 |
| Progress.ReversedPagesGoNegative | booknote/src/App.js:226 | a note from page 10 back to page 1 gives -3, since the result is capped above only |
| Search.RunSearch | booknote/src/App.js:156-164 | the three `forEach` loops produce exactly the specified result list |
| Search.BookPass | booknote/src/App.js:160 | the `books.forEach` loop pushes exactly the book results of the specification, in order |
| Search.ChapterPass | booknote/src/App.js:161 | the `chapters.forEach` loop pushes exactly the chapter results of the specification, in order |
| Search.DetailPass | booknote/src/App.js:162 | the `details.forEach` loop pushes exactly the note results of the specification, in order |
| Search.BookHitsIff | booknote/src/App.js:160 | a book result is listed exactly when a book's title or author includes the query |
| Search.ChapterHitsIff | booknote/src/App.js:161 | a chapter result is listed exactly when a chapter's title includes the query |
| Search.DetailHitsIff | booknote/src/App.js:162 | a note result is listed exactly when a note's title or content includes the query |
| Search.SearchMembership | booknote/src/App.js:156-164 | a blank query lists nothing; otherwise a result is listed exactly when it stands for a matching book, chapter or note |
| Search.EmptyQueryFindsNothing | booknote/src/App.js:38-39 | the initial empty query matches the initial empty results |
| Search.BookHitsAppend | booknote/src/App.js:160 | book results follow list order over concatenations |
| Search.ChapterHitsAppend | booknote/src/App.js:161 | chapter results follow list order over concatenations |
| Search.DetailHitsAppend | booknote/src/App.js:162 | note results follow list order over concatenations |
| Search.BookHitsAt | booknote/src/App.js:160 | each book contributes, at its own position, exactly its one result when it matches and nothing otherwise |
| Search.ChapterHitsAt | booknote/src/App.js:161 | each chapter contributes, at its own position, exactly its one result when it matches and nothing otherwise |
| Search.DetailHitsAt | booknote/src/App.js:162 | each note contributes, at its own position, exactly its one result when it matches and nothing otherwise |
| Search.HitRanks | booknote/src/App.js:160-162 | each loop lists only its own kind |
| Search.ListedHitExists | booknote/src/App.js:160-172 | every listed result names an entity that a lookup by its id finds |
| Search.SearchGroupedByKind | booknote/src/App.js:156-164 | all book results come before all chapter results, which come before all note results |
| Search.SearchIgnoresQueryCase | booknote/src/App.js:158 | lower-casing the query first changes nothing |
| Search.OneBookSearch | booknote/src/App.js:157-160 | on a single book, a non-blank query lists that book exactly when it matches |
| Search.TrailingSpaceMatters | booknote/src/App.js:157-160 | the query is trimmed only for the blank test, so "ab " does not find a book titled "ab" |
| Search.UntrimmedQueryFinds | booknote/src/App.js:157-160 | "ab" finds the book titled "ab" with its id, title and author |
| BookNoteApp.BookNote.constructor | booknote/src/App.js:21-44 | no registry, empty collections, the shelf, nothing selected, empty query and results, silent spelling panel |
| BookNoteApp.BookNote.RefreshSearch | booknote/src/App.js:156-164 | the search results are recomputed from the query and the collections |
| BookNoteApp.BookNote.InitialSetup | booknote/src/App.js:95-101 | refused exactly for a blank name; otherwise the registry is one empty library under the trimmed name, which becomes current |
| BookNoteApp.BookNote.SaveData | booknote/src/App.js:107-111 | without a registry nothing happens; otherwise the active collections replace the current library's entry |
| BookNoteApp.BookNote.LoadLibrary | booknote/src/App.js:125-135 | the old entry of the current library gets the active collections; the target's previously stored collections become active; the shelf is shown with no book selected |
| BookNoteApp.BookNote.ConfirmAddUser | booknote/src/App.js:137-146 | dismissed exactly for a blank name and refused exactly for an existing trimmed name, both without change; otherwise the current library is stored, an empty library is added under the trimmed name and made current, and the shelf is shown |
| BookNoteApp.BookNote.CreateLibrary | booknote/src/App.js:141-145 | stores the active collections, adds an empty library under the new name, switches to it and shows the shelf |
| BookNoteApp.BookNote.ConfirmAddGenre | booknote/src/App.js:148-154 | the custom genres become `AddGenre` of the old ones; duplicate-freedom and non-empty names are preserved |
| BookNoteApp.BookNote.UpdateBook | booknote/src/App.js:228 | the books are patched by id, and so is the selected book when it has that id; otherwise the selection is kept |
| BookNoteApp.BookNote.AddBook | booknote/src/App.js:229 | one new book is appended and its title editor is opened |
| BookNoteApp.BookNote.AddChapter | booknote/src/App.js:230 | nothing without a selected book; otherwise one numbered chapter is appended; chapter numbering stays consistent |
| BookNoteApp.BookNote.AddDetail | booknote/src/App.js:231 | nothing without a selected chapter; otherwise one numbered note is appended; note numbering stays consistent |
| BookNoteApp.BookNote.Rename | booknote/src/App.js:232 | the books with the id are retitled and the title editor closes |
| BookNoteApp.BookNote.DeleteBook | booknote/src/App.js:233 | no book with the id remains, other books keep their order, and the shelf is shown |
| BookNoteApp.BookNote.EditSelectedDetail | booknote/src/App.js:380-384 | the selected note and every note with its id receive the new page, title or content |
| BookNoteApp.BookNote.VideoUpdate | booknote/src/App.js:217 | outside the editor or without a selected note nothing changes; otherwise the selected note takes the link and replaces the notes with its id |
| BookNoteApp.BookNote.RunSpellCheck | booknote/src/App.js:194-206 | nothing without a selected note with content; otherwise the corrected text is proposed, and the message reports no typos exactly when it equals the note |
| BookNoteApp.BookNote.ApplySpellCorrection | booknote/src/App.js:208-215 | outside the editor or without a selected note nothing changes; otherwise the proposal becomes the note's content in the selection and the note list |
| BookNoteApp.BookNote.SetSearchQuery | booknote/src/App.js:156-164 | the query is set and the results are the search over it |
| BookNoteApp.BookNote.SearchResultClick | booknote/src/App.js:166-175 | the clicked entity and its ancestors are looked up by id and the matching view opens; a listed book or note result selects exactly that entity |
| BookNoteApp.BookNote.OpenBook | booknote/src/App.js:290 | the book is selected and its chapters are shown |
| BookNoteApp.BookNote.OpenChapter | booknote/src/App.js:352 | the chapter is selected and its notes are shown |
| BookNoteApp.BookNote.OpenDetail | booknote/src/App.js:366 | the note is selected and the editor is shown |
| BookNoteApp.BookNote.GoShelf | booknote/src/App.js:317 | the shelf is shown with no book selected |
| BookNoteApp.BookNote.GoChapters | booknote/src/App.js:318 | the chapter list is shown with no chapter selected |
| BookNoteApp.SwitchAwayAndBack | booknote/src/App.js:125-135 | loading another library and then the original one brings back the active collections, and leaves the other library's entry as it was |
| BookNoteApp.NewLibraryThenBack | booknote/src/App.js:137-146 | a new library starts empty, and switching back restores the previous collections |

Three behaviours of the code worth noting:
- `calculateProgress` caps its result at 100 but sets no lower bound, so a note whose end page precedes its start page can make it negative (`Progress.ReversedPagesGoNegative`).
- `handleDeleteBook` returns to the shelf whether or not the deleted book was selected.
- The breadcrumbs clear only the level directly below the one they open. The shelf button clears the selected book but keeps the selected chapter and note.

## Left out

- Storage: the cloud fetch at start-up, and the upserts in `handleInitialSetup` and `saveData`, are left out. Each method changes only the in-memory registry.
- The loading flag, the saving indicator with its timers, and the delayed reset of the spelling message are left out.
- Rendering and interface plumbing are left out: JSX, themes, the context menu, the click-outside listener, and the open/close flags of the forms.
- Drag and drop is left out: the drag source and hover state. A drop is the `updateBook` call with a one-genre category patch, which `BookNoteApp.BookNote.UpdateBook` covers.
- The effect that loads the spelling panel's text (`getSpellCheckTarget`, lines 177-192) and the sidebar tab are not modelled.
- The proposal textarea (line 425) lets the user edit `spellCorrection` before applying it; that typing is not modelled as a method. `BookNoteApp.BookNote.ApplySpellCorrection` takes whatever proposal the field holds, so its contract covers edited proposals too.
- The effect that mirrors the selected book's category into an edit field (line 225) is not modelled.
- Youtube.GetYoutubeId: the link is a sequence of Unicode scalar values. JavaScript strings are UTF-16 code units; the two differ only for characters outside the Basic Multilingual Plane.
- Text.Lower: only ASCII letters are lower-cased. JavaScript's `toLowerCase` also folds other alphabets.
- Progress.CalculateProgress: the division and rounding are exact integer arithmetic rather than IEEE double arithmetic. They differ only where double rounding would move a value across a half.
- Page and count inputs arrive as integers. The `parseInt(...) || 0` conversion of the page fields is not modelled.
- Stored libraries are assumed to have all four lists. The `|| []` fallbacks for missing fields are not modelled.
- Registry keys are plain strings. JavaScript object quirks are not modelled: inherited keys such as `constructor`, and the enumeration order `Object.keys` uses to choose the first library at start-up.
- BookNoteApp.BookNote.LoadLibrary: requires the target to be in the registry. With a missing target the source throws.
- BookNoteApp.BookNote.ConfirmAddUser: requires a registry unless the name is blank. The source throws when it looks up a name in a registry that is `null`.
- BookNoteApp.BookNote.SearchResultClick: for a note result, requires the note and its chapter to exist. The source throws on a stale id there.
- BookNoteApp.BookNote.EditSelectedDetail: each editor field is applied to the current note value. Rapid successive edits are not modelled as reading a stale render.
- The search effect runs inside each method that changes its inputs, not as a separate render pass. Handlers run one after another, without React's batching.
