# Library inventory manager — Dafny model

This project models the core of a small library inventory manager: the
`Book` record with its issue/return status transitions (book.py) and the
`LibraryInventory` store (inventory.py), which keeps an ordered list of books
with unique stripped ISBNs, searches it by ISBN and by title fragment, issues
and returns books by ISBN, saves the whole list after every successful change
and reloads it, skipping incomplete entries, when it is constructed.

Modules, one per concern:

- `Wrappers` — `Option`, `Result` and `Outcome` in place of `None` results and raised exceptions.
- `Text` — Python's `str.strip()` (the exact `str.isspace()` character set), ASCII `lower()`, and the `in` substring test.
- `Books` — the `Book` record, `issue`, `return_book`, `is_available`, `to_dict`.
- `Persistence` — the stored file as parsed (`Missing | Malformed | Entries`), the image a save writes, and the load-time entry filter.
- `Inventory` — the store: a `Library` value holding the books and the committed file. Every mutating operation returns a `Reply`: the state afterwards and an `Outcome` (passed, or the error raised).
- `InventoryProperties` — lemmas relating several operations.
- `Scenarios` — the repository's unit test and a few concrete cases, stated as lemmas about the model.

How the source's effects are represented:

- The file on disk is the `file` field of `Library`, holding the parsed list of entries. A save replaces it with the image of the books. A failed save (`writeOk == false`, an input standing for the disk) raises `SaveFailed` and leaves both the committed file and the in-memory change in place. This is how `save_to_file` behaves: it re-raises after the list has been changed, and the temporary-file-then-replace write leaves the old file intact, provided the storage path does not itself end in ".tmp" (see `Inventory.Save` under "## Left out").
- Exceptions become errors: `DuplicateIsbn` (the `ValueError` of `add_book`), `NotFound` (`LookupError`), `Transition(AlreadyIssued | NotIssued)` (the `ValueError`s of `Book`), and `SaveFailed`. A call refused by a check returns the library unchanged.
- `display_all` returns a copy of the list. In a value model that copy is the list itself, so `DisplayAll` is just the sequence and has no contract of its own.

Behaviour of the code that the model keeps as written:

- The status is free text. The docstring at book.py:16 names two values, but the guards at book.py:32 and book.py:38 each test one literal: `issue` refuses only "issued", and `return_book` refuses only "available". Any other string, such as "lost", passes both guards (`Books.UnknownStatusPassesBothGuards`). Loading keeps it verbatim (inventory.py:111).
- An entry without a `status` key is skipped on load. The guard at inventory.py:104 demands all four keys, so the `.get("status", "available")` fallback at inventory.py:111 is never used (`Persistence.FromEntry`, `Scenarios.LoadSkipsIncompleteEntries`).
- ISBN comparison strips whitespace but keeps case (inventory.py:45). "isbn-a" is a different key from "ISBN-A" (`Scenarios.IsbnLookupIsCaseSensitive`), so adding it is not a duplicate.
- Loading does not re-check ISBN uniqueness (inventory.py:102-112). A file holding two entries with the same ISBN loads both. The uniqueness invariant holds only for lists kept unique by `add_book` (inventory.py:30). `AddBook`, `IssueBook` and `ReturnBook` each preserve it.

## Model

| member | source | states |
|---|---|---|
| Text.StripSpec | inventory.py:45 | `strip()` yields `s` with whitespace runs cut from both ends: it is a slice of `s` flanked by whitespace only, and neither of its ends is whitespace (Python `str.isspace()` set) |
| Text.StripUnique | inventory.py:45 | any whitespace-flanked slice with non-whitespace ends is the stripped form, so the characterisation in `StripSpec` is exact |
| Text.StripIgnoresPadding | inventory.py:45 | adding whitespace around an ISBN does not change its stripped form |
| Text.Lower | inventory.py:38-39 | lower-casing keeps the length, folds each character on its own, and leaves no ASCII capital letter |
| Text.StripLowerCommute | inventory.py:38 | stripping then lower-casing gives the same string as lower-casing then stripping, since case folding neither creates nor removes whitespace |
| Books.NewBook | book.py:18-21 | a new book carries the given title, author and ISBN; its status is "available" unless one is supplied |
| Books.Issue | book.py:30-34 | issuing fails exactly when the status is "issued", with that error; otherwise the status becomes "issued", `is_available` turns false, and title, author and ISBN are untouched |
| Books.Return | book.py:36-44 | returning fails exactly when `is_available` holds (status "available"); otherwise the status becomes "available", `is_available` turns true, and the other fields are untouched |
| Books.ToDict | book.py:26-28 | the entry has exactly the keys title, author, isbn, status, each holding the field's value |
| Books.IssueThenReturn | book.py:30-40 | issuing a non-issued book and then returning it yields the same book with status "available" |
| Books.ReturnThenIssue | book.py:30-40 | returning a non-available book and then issuing it yields the same book with status "issued" |
| Books.TransitionsAreNotRepeatable | book.py:30-40 | a successful issue followed by another issue fails with "already issued", and likewise for return |
| Books.UnknownStatusPassesBothGuards | book.py:32-39 | a status other than "issued" and "available" can be both issued and returned |
| Persistence.Images | inventory.py:76 | the saved list has one entry per book, in order, each the book's `to_dict` |
| Persistence.FromEntry | inventory.py:107-112 | the book is the validated entry with any extra keys dropped: title, author, isbn and status are read as stored (the "available" fallback is dead), and rebuilding the entry gives it back exactly when it has only the four keys |
| Persistence.FromToDict | inventory.py:104-112 | every written entry passes validation and reads back as the book it was written from |
| Persistence.LoadEntries | inventory.py:101-113 | a book is loaded for every complete entry and only for complete entries, and never more books than entries |
| Persistence.LoadComplete | inventory.py:101-113 | a list of complete entries loads one book per entry, position by position |
| Persistence.LoadEntriesAppend | inventory.py:102-112 | loading works entry by entry in order: the books of a concatenated list are the books of each part, concatenated |
| Persistence.LoadImages | inventory.py:76-113 | loading the list a save wrote gives back exactly the saved books, in order |
| Inventory.FindIndex | inventory.py:42-47 | the position found is the first whose stripped ISBN equals the stripped query (case kept), and nothing is found exactly when no book matches |
| Inventory.SearchByIsbn | inventory.py:42-47 | the linear scan returns the first matching book, or nothing exactly when no book's stripped ISBN equals the stripped query |
| Inventory.SelectTitles | inventory.py:40 | the books kept are exactly the stored books whose lower-cased title contains the needle, and no more books than were given |
| Inventory.SearchByTitle | inventory.py:37-40 | the results are the stored books, in store order, kept by the list filter `SelectTitles` for the stripped, lower-cased fragment, so exactly those whose lower-cased title contains that fragment |
| Inventory.Save | inventory.py:73-84 | the books are never changed; a successful write puts the image of the books in the file; a failed one raises `SaveFailed` and leaves the committed file as it was |
| Inventory.AddBook | inventory.py:28-35 | a duplicate stripped ISBN is refused exactly when one exists, changing nothing; otherwise the book is appended after all earlier books, the file is saved (or the save error raised), and ISBN uniqueness is preserved |
| Inventory.IssueBook | inventory.py:53-61 | an unknown ISBN is refused exactly when no book matches; the first match's "already issued" error changes nothing; otherwise only that book's status becomes "issued", the file is saved, and ISBN uniqueness is preserved |
| Inventory.ReturnBook | inventory.py:63-71 | an unknown ISBN is refused exactly when no book matches; the first match's "not issued" error changes nothing; otherwise only that book's status becomes "available", the file is saved, and ISBN uniqueness is preserved |
| Inventory.Open | inventory.py:86-120 | a missing or unreadable file gives an empty store; a missing file is created only if the write succeeds; a parsed list yields a book for each complete entry and only for complete entries, in file order: exactly the entry filter `LoadEntries` |
| InventoryProperties.FindStoredBook | inventory.py:42-47 | in a store with unique ISBNs, looking up any stored book's ISBN finds that book |
| InventoryProperties.AddedBookIsFound | inventory.py:28-35 | after a successful add, the new book's ISBN finds it at the end of the list |
| InventoryProperties.PaddedDuplicateRefused | inventory.py:28-32 | a book whose ISBN differs from a stored one only by surrounding whitespace is refused as a duplicate and nothing changes |
| InventoryProperties.FirstMatchSurvivesStatusChange | inventory.py:59 | changing a book's status does not move the first match for its ISBN |
| InventoryProperties.IssuedAt | inventory.py:53-61 | with a working disk, issuing the first match whose status is not "issued" passes and changes only that book's status |
| InventoryProperties.ReturnedAt | inventory.py:63-71 | with a working disk, returning the first match whose status is not "available" passes, leaves the file in step, and changes only that book's status |
| InventoryProperties.ReturnAfterIssue | inventory.py:63-71 | returning a book that was just issued passes and restores its status to "available" |
| InventoryProperties.IssueThenReturnBook | inventory.py:53-71 | issuing then returning by ISBN passes and changes only that book's status, which ends "available"; a book that started "available" leaves the list exactly as it was |
| InventoryProperties.IssueTwiceRefused | inventory.py:53-61 | a second issue of the same ISBN fails with the "already issued" error and changes nothing |
| InventoryProperties.ReturnAvailableRefused | inventory.py:63-69 | returning a book that is still "available" fails with the "not issued" error and changes nothing |
| InventoryProperties.SelectTitlesAppend | inventory.py:40 | title search keeps store order: it distributes over concatenation |
| InventoryProperties.BlankFragmentFindsAll | inventory.py:37-40 | an empty or whitespace-only fragment returns every book, in order |
| InventoryProperties.FragmentCaseIgnored | inventory.py:37-40 | title search is case-insensitive in the fragment: two fragments that lower-case alike return the same books |
| InventoryProperties.LowerFragmentSameResults | inventory.py:37-40 | lower-casing a fragment before searching changes no result |
| InventoryProperties.ReopenSynced | inventory.py:86-113 | a store opened on a file holding the image of a list holds exactly that list, and leaves the file as it is |
| InventoryProperties.SuccessfulChangeSurvivesReopen | inventory.py:28-71 | after any successful add, issue or return, a fresh store opened on the file equals the current one |
| Scenarios.AddTwoBooks | test_inventory.py:13-21 | a store opened on a missing file accepts books "A" and "B" in order |
| Scenarios.SearchTitleA | test_inventory.py:24 | the fragment "A" finds only the book titled "A" |
| Scenarios.SearchTitleLowerCase | inventory.py:37-40 | the lower-case fragment "a" finds the book titled "A" and not the one titled "B" |
| Scenarios.SearchIsbnB | test_inventory.py:25 | "ISBN-B" finds the second book, titled "B" |
| Scenarios.IssueReturnAndFile | test_inventory.py:27-37 | issuing "ISBN-A" makes it "issued"; returning it restores the list; the saved file has an entry with isbn "ISBN-A" |
| Scenarios.LoadSkipsIncompleteEntries | inventory.py:102-112 | of a complete entry, one without an ISBN and one without a status, only the complete one is loaded |
| Scenarios.IsbnLookupIsCaseSensitive | inventory.py:45 | "isbn-a" does not find a book whose ISBN is "ISBN-A" |

## Left out

- main.py: the interactive menu, prompts and logging setup are input/output glue. Its use of the inventory is the API modelled here.
- JSON text: a file is seen after parsing, as a list of string-valued entries. `json.dump` formatting and `json.load` are not modelled.
- Non-list JSON roots, non-object items and non-string field values: these are dynamic-typing cases. In the source, values are coerced by `str(...)`. The model has only string values, and any other reading failure folds into `Malformed`.
- Filesystem details: the storage path, the `.tmp` file name, the `mkdir` of the parent directory and the atomic `replace` are not modelled. A save is a single value, `writeOk`, that says whether the write succeeds. An exception raised after a successful replace (by the log call) is not modelled.
- Logging calls: they have no effect on the state.
- `Book.__str__` (book.py:23-24): it is used only in log and menu text.
- Object aliasing: Python's search results share `Book` objects with the store, so a caller could change the store through them. Values cannot alias, so this is not modelled.
- Text.Lower: folds only ASCII `A`–`Z`. Python's `str.lower()` folds all of Unicode, including multi-character expansions.
- Inventory.SearchByTitle: case-insensitive only for ASCII, for the same reason.
- Inventory.Save: the model assumes the storage path does not end in ".tmp". For such a path `with_suffix(".tmp")` (inventory.py:77) names the committed file itself, so the write at inventory.py:78 truncates it before a failure can occur, and the committed file is then not kept intact.
- Inventory.DisplayAll: no contract. In value semantics the copy it returns is the list itself.
