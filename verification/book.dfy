/** A single book record (book.py): four text fields, of which only `status`
    ever changes, through the `issue` and `return_book` transitions. */
module Books {
  import opened Wrappers

  /** The two status values the code itself writes. The field is free text:
      any other string (say, "lost" typed into the data file) is kept as is. */
  const Available: string := "available"
  const Issued: string := "issued"

  /** The keys of a book's persisted entry, in the order `to_dict` lists them. */
  const TitleKey: string := "title"
  const AuthorKey: string := "author"
  const IsbnKey: string := "isbn"
  const StatusKey: string := "status"

  /** One persisted entry: a JSON object whose fields are all strings. */
  type Entry = map<string, string>

  datatype Book = Book(title: string, author: string, isbn: string, status: string)

  /** The `ValueError`s a status transition raises. */
  datatype TransitionError = AlreadyIssued(title: string) | NotIssued(title: string)

  /** Same title, author and ISBN: the fields no transition may touch. */
  predicate SameIdentity(a: Book, b: Book)
  {
    a.title == b.title && a.author == b.author && a.isbn == b.isbn
  }

  /** The dataclass constructor: `status` is optional and defaults to
      "available". */
  function NewBook(title: string, author: string, isbn: string, status: Option<string>): (b: Book)
    ensures b.title == title && b.author == author && b.isbn == isbn
    ensures status.None? ==> IsAvailable(b)
    ensures status.Some? ==> b.status == status.value
  {
    Book(title, author, isbn, if status.Some? then status.value else Available)
  }

  /** `is_available`: true exactly for the status "available". */
  predicate IsAvailable(b: Book)
  {
    b.status == Available
  }

  /** `issue`: refused only when the status is literally "issued"; every other
      status, known or not, becomes "issued". */
  function Issue(b: Book): (r: Result<Book, TransitionError>)
    ensures r.Failure? <==> b.status == Issued
    ensures r.Failure? ==> r.error == AlreadyIssued(b.title)
    ensures r.Success? ==> r.value.status == Issued && !IsAvailable(r.value)
    ensures r.Success? ==> SameIdentity(b, r.value)
  {
    if b.status == Issued then Failure(AlreadyIssued(b.title))
    else Success(b.(status := Issued))
  }

  /** `return_book`: refused only when the status is literally "available";
      every other status, known or not, becomes "available". */
  function Return(b: Book): (r: Result<Book, TransitionError>)
    ensures r.Failure? <==> IsAvailable(b)
    ensures r.Failure? ==> r.error == NotIssued(b.title)
    ensures r.Success? ==> IsAvailable(r.value)
    ensures r.Success? ==> SameIdentity(b, r.value)
  {
    if b.status == Available then Failure(NotIssued(b.title))
    else Success(b.(status := Available))
  }

  /** `to_dict`: the entry holding exactly the four fields. */
  function ToDict(b: Book): (e: Entry)
    ensures e.Keys == {TitleKey, AuthorKey, IsbnKey, StatusKey}
    ensures e[TitleKey] == b.title && e[AuthorKey] == b.author
    ensures e[IsbnKey] == b.isbn && e[StatusKey] == b.status
  {
    map[TitleKey := b.title, AuthorKey := b.author, IsbnKey := b.isbn, StatusKey := b.status]
  }

  /** Issuing a book that is not issued and then returning it gives back the
      same book with status "available". */
  lemma IssueThenReturn(b: Book)
    requires b.status != Issued
    ensures Issue(b).Success?
    ensures Return(Issue(b).value) == Success(b.(status := Available))
  {
  }

  /** Returning a book that is not available and then issuing it gives back
      the same book with status "issued". */
  lemma ReturnThenIssue(b: Book)
    requires !IsAvailable(b)
    ensures Return(b).Success?
    ensures Issue(Return(b).value) == Success(b.(status := Issued))
  {
  }

  /** A second `issue` in a row is refused, and a second `return_book` too. */
  lemma TransitionsAreNotRepeatable(b: Book)
    ensures Issue(b).Success? ==> Issue(Issue(b).value) == Failure(AlreadyIssued(b.title))
    ensures Return(b).Success? ==> Return(Return(b).value) == Failure(NotIssued(b.title))
  {
  }

  /** A status other than the two known literals passes both guards. */
  lemma UnknownStatusPassesBothGuards(b: Book)
    requires b.status != Issued && b.status != Available
    ensures Issue(b).Success? && Return(b).Success?
  {
  }
}
