/** The persisted image of an inventory and the entry filter applied when it
    is read back (inventory.py, `save_to_file` and `load_from_file`). JSON text
    itself is not modelled: a file is seen after parsing. */
module Persistence {
  import opened Books

  /** The storage file as `load_from_file` finds it: absent, unreadable (a
      JSON decoding error or any other exception while reading), or a parsed
      list of entries. */
  datatype StoredFile = Missing | Malformed | Entries(entries: seq<Entry>)

  /** The list `save_to_file` writes: one `to_dict` entry per book, in order. */
  function Images(books: seq<Book>): (es: seq<Entry>)
    ensures |es| == |books|
    ensures forall i :: 0 <= i < |books| ==> es[i] == ToDict(books[i])
  {
    seq(|books|, i requires 0 <= i < |books| => ToDict(books[i]))
  }

  /** The load-time validation: an entry is kept only when all four keys,
      `status` included, are present. */
  predicate IsComplete(e: Entry)
  {
    TitleKey in e && AuthorKey in e && IsbnKey in e && StatusKey in e
  }

  /** The book built from a validated entry. The code reads the status with a
      fallback of "available", but validation has already demanded the key,
      so the fallback is never taken. */
  function FromEntry(e: Entry): (b: Book)
    requires IsComplete(e)
    ensures ToDict(b) == map k | k in e && k in {TitleKey, AuthorKey, IsbnKey, StatusKey} :: e[k]
    ensures b.status == e[StatusKey]
    ensures ToDict(b) == e <==> e.Keys == {TitleKey, AuthorKey, IsbnKey, StatusKey}
  {
    Book(e[TitleKey], e[AuthorKey], e[IsbnKey],
         if StatusKey in e then e[StatusKey] else Available)
  }

  /** Reading a written entry gives back the book it was written from. */
  lemma FromToDict(b: Book)
    ensures IsComplete(ToDict(b)) && FromEntry(ToDict(b)) == b
  {
  }

  /** The loop over a parsed list: complete entries become books, in order;
      incomplete ones are skipped. */
  function LoadEntries(es: seq<Entry>): (r: seq<Book>)
    ensures |r| <= |es|
    ensures forall e :: e in es && IsComplete(e) ==> FromEntry(e) in r
    ensures forall b :: b in r ==> exists e :: e in es && IsComplete(e) && FromEntry(e) == b
  {
    if es == [] then []
    else
      var rest := LoadEntries(es[1..]);
      assert forall e :: e in es <==> e == es[0] || e in es[1..];
      if IsComplete(es[0]) then [FromEntry(es[0])] + rest else rest
  }

  /** Loading is done entry by entry: the books of a concatenated list are the
      books of each part, in order. With the singleton cases of the definition
      this fixes the result exactly. */
  lemma {:induction false} LoadEntriesAppend(a: seq<Entry>, b: seq<Entry>)
    ensures LoadEntries(a + b) == LoadEntries(a) + LoadEntries(b)
  {
    if a == [] {
      assert a + b == b;
    } else {
      assert (a + b)[1..] == a[1..] + b;
      LoadEntriesAppend(a[1..], b);
    }
  }

  /** A list of complete entries loads one book per entry, in order. */
  lemma {:induction false} LoadComplete(es: seq<Entry>)
    requires forall i :: 0 <= i < |es| ==> IsComplete(es[i])
    ensures |LoadEntries(es)| == |es|
    ensures forall i :: 0 <= i < |es| ==> LoadEntries(es)[i] == FromEntry(es[i])
  {
    if es != [] {
      LoadComplete(es[1..]);
    }
  }

  /** Loading the list a save wrote gives back the saved books. */
  lemma LoadImages(books: seq<Book>)
    ensures LoadEntries(Images(books)) == books
  {
    var es := Images(books);
    forall i | 0 <= i < |es|
      ensures IsComplete(es[i]) && FromEntry(es[i]) == books[i]
    {
      FromToDict(books[i]);
    }
    LoadComplete(es);
  }
}
