/** Concrete cases stated about the model: the repository's own unit test,
    a load of a file with incomplete entries, and a case-sensitive ISBN
    lookup. */
module Scenarios {
  import opened Wrappers
  import opened Text
  import opened Books
  import opened Persistence
  import opened Inventory
  import opened InventoryProperties

  const BookA: Book := NewBook("A", "Author A", "ISBN-A", None)
  const BookB: Book := NewBook("B", "Author B", "ISBN-B", None)

  /** test_add_and_search_and_persistence, first step: a store opened on a
      missing file accepts the two books, in order. */
  lemma AddTwoBooks()
    ensures var r1 := AddBook(Open(Missing, true), BookA, true);
            var r2 := AddBook(r1.lib, BookB, true);
            && r1.outcome.Pass? && r2.outcome.Pass?
            && r2.lib.books == [BookA, BookB]
  {
  }

  /** The title search of the same test: the fragment "A" matches the
      title "A" but not "B". */
  lemma SearchTitleA(file: StoredFile)
    ensures SearchByTitle(Library([BookA, BookB], file), "A") == [BookA]
  {
    assert Lower(Strip("A")) == "a" by {
      StripUnique("A", "A", 0);
      assert Lower("A") == "a";
    }
    assert TitleMatches(BookA, "a") by {
      assert Lower("A") == "a";
      assert OccursAt("a", "a", 0);
    }
    assert !TitleMatches(BookB, "a") by {
      assert Lower("B") == "b";
    }
    assert [BookA, BookB][1..] == [BookB];
    assert SelectTitles([BookB], "a") == [] by {
      assert [BookB][1..] == [];
    }
  }

  /** Title search folds case: the lower-case fragment "a" finds the
      title "A" just as "A" does. */
  lemma SearchTitleLowerCase(file: StoredFile)
    ensures SearchByTitle(Library([BookA, BookB], file), "a") == [BookA]
  {
    assert Lower("a") == "a" == Lower("A");
    FragmentCaseIgnored(Library([BookA, BookB], file), "a", "A");
    SearchTitleA(file);
  }

  /** The ISBN lookup of the same test: "ISBN-B" finds the book titled "B". */
  lemma SearchIsbnB()
    ensures FindIndex([BookA, BookB], "ISBN-B") == Some(1)
  {
  }

  /** The second half of the same test: issuing "ISBN-A" makes it "issued",
      returning it makes it "available" again, and the saved file holds an
      entry whose ISBN is "ISBN-A". */
  lemma IssueReturnAndFile(file: StoredFile)
    ensures var lib := Library([BookA, BookB], file);
            var r3 := IssueBook(lib, "ISBN-A", true);
            var r4 := ReturnBook(r3.lib, "ISBN-A", true);
            && r3.outcome.Pass? && r3.lib.books[0].status == Issued
            && r4.outcome.Pass? && r4.lib.books == [BookA, BookB]
            && r4.lib.file.Entries?
            && exists e :: e in r4.lib.file.entries && IsbnKey in e && e[IsbnKey] == "ISBN-A"
  {
  }

  /** Loading a file holding one complete entry, one without an ISBN and one
      without a status keeps only the first: the missing status is not
      defaulted. Nothing is raised. */
  lemma LoadSkipsIncompleteEntries(writeOk: bool)
    ensures var good := map[TitleKey := "A", AuthorKey := "Author A", IsbnKey := "ISBN-A", StatusKey := "issued"];
            var noIsbn := map[TitleKey := "B", AuthorKey := "Author B", StatusKey := "available"];
            var noStatus := map[TitleKey := "C", AuthorKey := "Author C", IsbnKey := "ISBN-C"];
            Open(Entries([good, noIsbn, noStatus]), writeOk).books == [Book("A", "Author A", "ISBN-A", "issued")]
  {
    var good := map[TitleKey := "A", AuthorKey := "Author A", IsbnKey := "ISBN-A", StatusKey := "issued"];
    var noIsbn := map[TitleKey := "B", AuthorKey := "Author B", StatusKey := "available"];
    var noStatus := map[TitleKey := "C", AuthorKey := "Author C", IsbnKey := "ISBN-C"];
    assert !IsComplete(noIsbn);
    assert !IsComplete(noStatus);
    assert IsComplete(good);
    assert FromEntry(good) == Book("A", "Author A", "ISBN-A", "issued");
    assert LoadEntries([noStatus]) == [] by {
      assert [noStatus][1..] == [];
    }
    assert LoadEntries([noIsbn, noStatus]) == [] by {
      assert [noIsbn, noStatus][1..] == [noStatus];
    }
    assert [good, noIsbn, noStatus][1..] == [noIsbn, noStatus];
  }

  /** ISBN lookup does not fold case: "isbn-a" does not find "ISBN-A". */
  lemma IsbnLookupIsCaseSensitive()
    ensures FindIndex([BookA], "isbn-a") == None
  {
  }
}
