/** `LibraryInventory` (inventory.py): an ordered list of books together with
    the storage file it is saved to after every successful change. */
module Inventory {
  import opened Wrappers
  import opened Text
  import opened Books
  import opened Persistence

  /** The in-memory list and the committed content of the storage file. */
  datatype Library = Library(books: seq<Book>, file: StoredFile)

  /** What the operations raise. `DuplicateIsbn` and `Transition` are the
      code's `ValueError`s, `NotFound` its `LookupError`, and `SaveFailed`
      whatever I/O error `save_to_file` re-raises. */
  datatype Error =
    | DuplicateIsbn(isbn: string)
    | NotFound(isbn: string)
    | Transition(cause: TransitionError)
    | SaveFailed

  /** A mutating call's effect: the state afterwards and what was raised. */
  datatype Reply = Reply(lib: Library, outcome: Outcome<Error>)

  /** The call was refused by a check, before anything changed. */
  predicate Rejected(r: Reply)
  {
    r.outcome.Fail? && r.outcome.error != SaveFailed
  }

  /** The committed file holds exactly the image of the in-memory list. */
  predicate Synced(lib: Library)
  {
    lib.file == Entries(Images(lib.books))
  }

  /** ISBNs are compared after stripping whitespace, with case kept. */
  predicate IsbnMatches(b: Book, isbn: string)
  {
    Strip(b.isbn) == Strip(isbn)
  }

  predicate HasIsbn(books: seq<Book>, isbn: string)
  {
    exists i :: 0 <= i < |books| && IsbnMatches(books[i], isbn)
  }

  /** `i` is the first position whose book matches `isbn`. */
  predicate IsFirstMatch(books: seq<Book>, isbn: string, i: int)
  {
    && 0 <= i < |books|
    && IsbnMatches(books[i], isbn)
    && forall j :: 0 <= j < i ==> !IsbnMatches(books[j], isbn)
  }

  /** The store's uniqueness invariant: no two books share a stripped ISBN. */
  predicate UniqueIsbns(books: seq<Book>)
  {
    forall i, j :: 0 <= i < j < |books| ==> Strip(books[i].isbn) != Strip(books[j].isbn)
  }

  /** Position of the book `search_by_isbn` would return. */
  function FindIndex(books: seq<Book>, isbn: string): (r: Option<nat>)
    ensures r.Some? ==> IsFirstMatch(books, isbn, r.value)
    ensures r.None? <==> !HasIsbn(books, isbn)
  {
    if books == [] then None
    else if IsbnMatches(books[0], isbn) then Some(0)
    else
      match FindIndex(books[1..], isbn)
      case None => None
      case Some(k) => Some(k + 1)
  }

  /** `search_by_isbn`: the linear scan returning the first book whose
      stripped ISBN equals the stripped query, or nothing. */
  method SearchByIsbn(lib: Library, isbn: string) returns (r: Option<Book>)
    ensures r.None? <==> !HasIsbn(lib.books, isbn)
    ensures r.Some? ==> exists i :: IsFirstMatch(lib.books, isbn, i) && lib.books[i] == r.value
  {
    var key := Strip(isbn);
    var n := 0;
    while n < |lib.books|
      invariant 0 <= n <= |lib.books|
      invariant forall j :: 0 <= j < n ==> !IsbnMatches(lib.books[j], isbn)
    {
      if Strip(lib.books[n].isbn) == key {
        assert IsFirstMatch(lib.books, isbn, n);
        return Some(lib.books[n]);
      }
      n := n + 1;
    }
    return None;
  }

  /** Whether a book's lower-cased title contains `needle`. */
  predicate TitleMatches(b: Book, needle: string)
  {
    Contains(needle, Lower(b.title))
  }

  /** The list comprehension of `search_by_title`, for a prepared needle. */
  function SelectTitles(books: seq<Book>, needle: string): (r: seq<Book>)
    ensures |r| <= |books|
    ensures forall b :: b in r <==> b in books && TitleMatches(b, needle)
  {
    if books == [] then []
    else
      var rest := SelectTitles(books[1..], needle);
      assert forall b :: b in books <==> b == books[0] || b in books[1..];
      if TitleMatches(books[0], needle) then [books[0]] + rest else rest
  }

  /** `search_by_title`: the books, in store order, whose lower-cased title
      contains the stripped and lower-cased fragment. */
  function SearchByTitle(lib: Library, fragment: string): (r: seq<Book>)
    ensures r == SelectTitles(lib.books, Lower(Strip(fragment)))
  {
    SelectTitles(lib.books, Lower(Strip(fragment)))
  }

  /** `display_all`: every book, in store order. */
  function DisplayAll(lib: Library): (r: seq<Book>)
  {
    lib.books
  }

  /** `save_to_file`: on a successful write the file becomes the image of the
      list; on a failed one the error is raised, the list is kept and the
      committed file is untouched (the write goes to a temporary file first). */
  function Save(lib: Library, writeOk: bool): (r: Reply)
    ensures r.lib.books == lib.books
    ensures r.outcome.Pass? <==> writeOk
    ensures r.outcome.Fail? ==> r.outcome.error == SaveFailed && r.lib.file == lib.file
    ensures writeOk ==> Synced(r.lib)
  {
    if writeOk then Reply(lib.(file := Entries(Images(lib.books))), Pass)
    else Reply(lib, Fail(SaveFailed))
  }

  /** `add_book`: refused when a book with the same stripped ISBN exists;
      otherwise the book is appended and the inventory saved. */
  function AddBook(lib: Library, book: Book, writeOk: bool): (r: Reply)
    ensures r.outcome == Fail(DuplicateIsbn(book.isbn)) <==> HasIsbn(lib.books, book.isbn)
    ensures Rejected(r) ==> r.lib == lib
    ensures !HasIsbn(lib.books, book.isbn) ==>
              r.lib.books == lib.books + [book] && (r.outcome.Pass? <==> writeOk)
    ensures r.outcome.Pass? ==> Synced(r.lib)
    ensures !writeOk ==> r.lib.file == lib.file
    ensures UniqueIsbns(lib.books) ==> UniqueIsbns(r.lib.books)
  {
    if FindIndex(lib.books, book.isbn).Some? then Reply(lib, Fail(DuplicateIsbn(book.isbn)))
    else Save(lib.(books := lib.books + [book]), writeOk)
  }

  /** Only the first match's status differs between `before` and `after`. */
  predicate StatusChangedAt(before: seq<Book>, after: seq<Book>, i: int, status: string)
  {
    && 0 <= i < |before|
    && after == before[i := before[i].(status := status)]
  }

  /** `issue_book`: `LookupError` for an unknown ISBN; the book's own
      `ValueError` when it is already issued; otherwise its status becomes
      "issued" and the inventory is saved. */
  function IssueBook(lib: Library, isbn: string, writeOk: bool): (r: Reply)
    ensures r.outcome == Fail(NotFound(isbn)) <==> !HasIsbn(lib.books, isbn)
    ensures Rejected(r) ==> r.lib == lib
    ensures forall i :: IsFirstMatch(lib.books, isbn, i) ==>
              && (lib.books[i].status == Issued <==>
                    r.outcome == Fail(Transition(AlreadyIssued(lib.books[i].title))))
              && (lib.books[i].status != Issued ==>
                    StatusChangedAt(lib.books, r.lib.books, i, Issued) && (r.outcome.Pass? <==> writeOk))
    ensures r.outcome.Pass? ==> Synced(r.lib)
    ensures !writeOk ==> r.lib.file == lib.file
    ensures UniqueIsbns(lib.books) ==> UniqueIsbns(r.lib.books)
  {
    match FindIndex(lib.books, isbn)
    case None => Reply(lib, Fail(NotFound(isbn)))
    case Some(i) =>
      match Issue(lib.books[i])
      case Failure(e) => Reply(lib, Fail(Transition(e)))
      case Success(b) => Save(lib.(books := lib.books[i := b]), writeOk)
  }

  /** `return_book`: `LookupError` for an unknown ISBN; the book's own
      `ValueError` when it is already available; otherwise its status becomes
      "available" and the inventory is saved. */
  function ReturnBook(lib: Library, isbn: string, writeOk: bool): (r: Reply)
    ensures r.outcome == Fail(NotFound(isbn)) <==> !HasIsbn(lib.books, isbn)
    ensures Rejected(r) ==> r.lib == lib
    ensures forall i :: IsFirstMatch(lib.books, isbn, i) ==>
              && (lib.books[i].status == Available <==>
                    r.outcome == Fail(Transition(NotIssued(lib.books[i].title))))
              && (lib.books[i].status != Available ==>
                    StatusChangedAt(lib.books, r.lib.books, i, Available) && (r.outcome.Pass? <==> writeOk))
    ensures r.outcome.Pass? ==> Synced(r.lib)
    ensures !writeOk ==> r.lib.file == lib.file
    ensures UniqueIsbns(lib.books) ==> UniqueIsbns(r.lib.books)
  {
    match FindIndex(lib.books, isbn)
    case None => Reply(lib, Fail(NotFound(isbn)))
    case Some(i) =>
      match Return(lib.books[i])
      case Failure(e) => Reply(lib, Fail(Transition(e)))
      case Success(b) => Save(lib.(books := lib.books[i := b]), writeOk)
  }

  /** The constructor's `load_from_file`. A missing file gives an empty list
      and an attempt to create the file, whose failure is swallowed; an
      unreadable file gives an empty list and is left as it is; a parsed list
      keeps its complete entries. */
  function Open(file: StoredFile, writeOk: bool): (lib: Library)
    ensures !file.Entries? ==> lib.books == []
    ensures file.Entries? ==> lib.books == LoadEntries(file.entries)
    ensures lib.file == (if file.Missing? && writeOk then Entries([]) else file)
  {
    match file
    case Missing => Save(Library([], Missing), writeOk).lib
    case Malformed => Library([], Malformed)
    case Entries(es) => Library(LoadEntries(es), file)
  }
}
