/** Properties relating several inventory operations: lookups after a
    change, transitions in sequence, the order of title search results, and
    reopening the storage file after a save. */
module InventoryProperties {
  import opened Wrappers
  import opened Text
  import opened Books
  import opened Persistence
  import opened Inventory

  /** Under the uniqueness invariant, looking up any stored book's ISBN finds
      that very book. */
  lemma FindStoredBook(books: seq<Book>, i: int)
    requires UniqueIsbns(books) && 0 <= i < |books|
    ensures FindIndex(books, books[i].isbn) == Some(i)
  {
  }

  /** After a successful `add_book` the new book is what its ISBN finds, at
      the end of the list. */
  lemma AddedBookIsFound(lib: Library, book: Book, writeOk: bool)
    requires AddBook(lib, book, writeOk).outcome.Pass?
    ensures FindIndex(AddBook(lib, book, writeOk).lib.books, book.isbn) == Some(|lib.books|)
  {
    var books := lib.books + [book];
    assert !HasIsbn(lib.books, book.isbn);
    assert AddBook(lib, book, writeOk).lib.books == books;
    forall j | 0 <= j < |lib.books|
      ensures !IsbnMatches(books[j], book.isbn)
    {
      assert books[j] == lib.books[j];
    }
    assert IsFirstMatch(books, book.isbn, |lib.books|);
  }

  /** A second book whose ISBN differs from a stored one only by surrounding
      whitespace is refused as a duplicate, and nothing changes. */
  lemma PaddedDuplicateRefused(lib: Library, i: int, book: Book, p: string, q: string, writeOk: bool)
    requires 0 <= i < |lib.books|
    requires AllSpace(p) && AllSpace(q) && book.isbn == p + lib.books[i].isbn + q
    ensures AddBook(lib, book, writeOk) == Reply(lib, Fail(DuplicateIsbn(book.isbn)))
  {
    StripIgnoresPadding(p, lib.books[i].isbn, q);
    assert IsbnMatches(lib.books[i], book.isbn);
  }

  /** Changing one book's status does not move the first match of its ISBN. */
  lemma FirstMatchSurvivesStatusChange(books: seq<Book>, isbn: string, i: int, status: string)
    requires IsFirstMatch(books, isbn, i)
    ensures IsFirstMatch(books[i := books[i].(status := status)], isbn, i)
  {
  }

  /** The successful issue of the book at the first match `i`. */
  lemma IssuedAt(lib: Library, isbn: string, i: int)
    requires IsFirstMatch(lib.books, isbn, i) && lib.books[i].status != Issued
    ensures var r := IssueBook(lib, isbn, true);
            r.outcome.Pass? && StatusChangedAt(lib.books, r.lib.books, i, Issued)
  {
  }

  /** The successful return of the book at the first match `i`. */
  lemma ReturnedAt(lib: Library, isbn: string, i: int)
    requires IsFirstMatch(lib.books, isbn, i) && lib.books[i].status != Available
    ensures var r := ReturnBook(lib, isbn, true);
            r.outcome.Pass? && Synced(r.lib) && StatusChangedAt(lib.books, r.lib.books, i, Available)
  {
  }

  /** Two status changes at the same position amount to the last one. */
  lemma StatusTwice(books: seq<Book>, i: int, first: string, second: string)
    requires 0 <= i < |books|
    ensures var mid := books[i := books[i].(status := first)];
            mid[i := mid[i].(status := second)] == books[i := books[i].(status := second)]
  {
  }

  /** Returning the book at `i` of a list in which only that book was just
      issued restores its status to "available" and changes nothing else. */
  lemma ReturnAfterIssue(lib: Library, isbn: string, i: int, mid: Library)
    requires IsFirstMatch(lib.books, isbn, i)
    requires mid.books == lib.books[i := lib.books[i].(status := Issued)]
    ensures ReturnBook(mid, isbn, true).outcome.Pass?
    ensures StatusChangedAt(lib.books, ReturnBook(mid, isbn, true).lib.books, i, Available)
    ensures IsAvailable(lib.books[i]) ==> ReturnBook(mid, isbn, true).lib.books == lib.books
  {
    FirstMatchSurvivesStatusChange(lib.books, isbn, i, Issued);
    assert mid.books[i].status == Issued;
    ReturnedAt(mid, isbn, i);
    StatusTwice(lib.books, i, Issued, Available);
    if IsAvailable(lib.books[i]) {
      assert lib.books[i].(status := Available) == lib.books[i];
    }
  }

  /** Issuing a book by ISBN and then returning it succeeds (so the file is
      in step, by `ReturnBook`'s contract) and changes nothing but that
      book's status, which ends as "available"; a book that was available to
      begin with leaves the whole list as it was. */
  lemma IssueThenReturnBook(lib: Library, isbn: string, i: int)
    requires IsFirstMatch(lib.books, isbn, i) && lib.books[i].status != Issued
    ensures ReturnBook(IssueBook(lib, isbn, true).lib, isbn, true).outcome.Pass?
    ensures StatusChangedAt(lib.books, ReturnBook(IssueBook(lib, isbn, true).lib, isbn, true).lib.books, i, Available)
    ensures IsAvailable(lib.books[i]) ==> ReturnBook(IssueBook(lib, isbn, true).lib, isbn, true).lib.books == lib.books
  {
    IssuedAt(lib, isbn, i);
    ReturnAfterIssue(lib, isbn, i, IssueBook(lib, isbn, true).lib);
  }

  /** Issuing the same ISBN twice in a row: the second call is refused with
      the book's "already issued" error and changes nothing. */
  lemma IssueTwiceRefused(lib: Library, isbn: string, writeOk: bool, writeOk': bool)
    requires IssueBook(lib, isbn, writeOk).outcome.Pass?
    ensures var mid := IssueBook(lib, isbn, writeOk).lib;
            var again := IssueBook(mid, isbn, writeOk');
            && again.lib == mid
            && again.outcome.Fail? && again.outcome.error.Transition?
            && again.outcome.error.cause.AlreadyIssued?
  {
    var mid := IssueBook(lib, isbn, writeOk).lib;
    var i := FindIndex(lib.books, isbn).value;
    FirstMatchSurvivesStatusChange(lib.books, isbn, i, Issued);
    assert mid.books[i].status == Issued;
  }

  /** Returning a book whose first match is still "available" is refused and
      changes nothing. */
  lemma ReturnAvailableRefused(lib: Library, isbn: string, i: int, writeOk: bool)
    requires IsFirstMatch(lib.books, isbn, i) && IsAvailable(lib.books[i])
    ensures ReturnBook(lib, isbn, writeOk) == Reply(lib, Fail(Transition(NotIssued(lib.books[i].title))))
  {
  }

  /** Title search keeps store order: it distributes over concatenation. */
  lemma {:induction false} SelectTitlesAppend(a: seq<Book>, b: seq<Book>, needle: string)
    ensures SelectTitles(a + b, needle) == SelectTitles(a, needle) + SelectTitles(b, needle)
  {
    if a == [] {
      assert a + b == b;
    } else {
      assert (a + b)[1..] == a[1..] + b;
      SelectTitlesAppend(a[1..], b, needle);
    }
  }

  /** A matching-everything needle selects the whole list. */
  lemma {:induction false} SelectAllTitles(books: seq<Book>, needle: string)
    requires forall i :: 0 <= i < |books| ==> TitleMatches(books[i], needle)
    ensures SelectTitles(books, needle) == books
  {
    if books != [] {
      SelectAllTitles(books[1..], needle);
    }
  }

  /** An empty or whitespace-only fragment finds every book, in order. */
  lemma BlankFragmentFindsAll(lib: Library, fragment: string)
    requires AllSpace(fragment)
    ensures SearchByTitle(lib, fragment) == lib.books
  {
    StripAllSpace(fragment);
    assert Lower(Strip(fragment)) == "";
    forall i | 0 <= i < |lib.books|
      ensures TitleMatches(lib.books[i], "")
    {
      EmptyContained(Lower(lib.books[i].title));
    }
    SelectAllTitles(lib.books, "");
  }

  /** Title search ignores the case of the fragment: two fragments that
      lower-case alike find the same books. */
  lemma {:induction false} FragmentCaseIgnored(lib: Library, f: string, g: string)
    requires Lower(f) == Lower(g)
    ensures SearchByTitle(lib, f) == SearchByTitle(lib, g)
  {
    StripLowerCommute(f);
    StripLowerCommute(g);
  }

  /** Lower-casing the fragment beforehand changes nothing. */
  lemma LowerFragmentSameResults(lib: Library, f: string)
    ensures SearchByTitle(lib, Lower(f)) == SearchByTitle(lib, f)
  {
    LowerIdempotent(f);
    FragmentCaseIgnored(lib, Lower(f), f);
  }

  /** Reopening a file that holds the image of a list gives back that list,
      and the file is left as it was. */
  lemma ReopenSynced(lib: Library, writeOk: bool)
    requires Synced(lib)
    ensures Open(lib.file, writeOk) == lib
  {
    LoadImages(lib.books);
  }

  /** Every successful mutation leaves a file from which a fresh inventory
      reloads exactly the current state. */
  lemma SuccessfulChangeSurvivesReopen(lib: Library, book: Book, isbn: string, writeOk: bool)
    ensures AddBook(lib, book, true).outcome.Pass? ==>
              Open(AddBook(lib, book, true).lib.file, writeOk) == AddBook(lib, book, true).lib
    ensures IssueBook(lib, isbn, true).outcome.Pass? ==>
              Open(IssueBook(lib, isbn, true).lib.file, writeOk) == IssueBook(lib, isbn, true).lib
    ensures ReturnBook(lib, isbn, true).outcome.Pass? ==>
              Open(ReturnBook(lib, isbn, true).lib.file, writeOk) == ReturnBook(lib, isbn, true).lib
  {
    var a, s, t := AddBook(lib, book, true), IssueBook(lib, isbn, true), ReturnBook(lib, isbn, true);
    if a.outcome.Pass? { ReopenSynced(a.lib, writeOk); }
    if s.outcome.Pass? { ReopenSynced(s.lib, writeOk); }
    if t.outcome.Pass? { ReopenSynced(t.lib, writeOk); }
  }
}
