/**
 * The catalog (Python class `Library`): an ordered list of books kept in
 * memory and written through to a data file after every change.
 */
module Catalog {
  import opened Wrappers
  import opened BookRecord
  import opened CatalogSpec

  /** What `update_status` reports (the source prints it). */
  datatype UpdateOutcome = Updated | InvalidStatus | NotFound

  class Library {
    /** The books, in insertion order, which is also display order. */
    var books: seq<Book>
    /**
     * The data file's content as decoded JSON entries; `None` when the file
     * is missing or cannot be decoded.
     */
    var store: Option<seq<RawEntry>>

    /**
     * Every status is one of the two literals, and reading the data file
     * again would give exactly the books in memory.
     */
    ghost predicate Valid()
      reads this
    {
      AllStatusesAllowed(books) && LoadFile(store) == books
    }

    /** `Library(data_file)`: loads whatever the file holds. */
    constructor (file: Option<seq<RawEntry>>)
      ensures Valid()
      ensures store == file && books == LoadFile(file)
    {
      store := file;
      books := [];
      new;
      books := LoadBooks();
    }

    /**
     * `load_books`: the valid entries of the file, converted in file order;
     * no books when the file is missing or cannot be decoded.
     */
    method LoadBooks() returns (loaded: seq<Book>)
      ensures loaded == LoadFile(store)
    {
      match store
      case None =>
        loaded := [];
      case Some(entries) =>
        loaded := [];
        for k := 0 to |entries|
          invariant loaded == Loaded(entries[..k])
        {
          assert entries[..k + 1][..k] == entries[..k];
          var ok := ValidateDict(entries[k]);
          if ok {
            loaded := loaded + [FromDict(entries[k])];
          }
        }
        assert entries[..|entries|] == entries;
    }

    /** `_save_books`: overwrites the file with every book's dictionary. */
    method SaveBooks()
      modifies this`store
      ensures store == Some(Serialize(books))
    {
      store := Some(Serialize(books));
    }

    /** `add_book`: appends an available book with the next id and saves. */
    method AddBook(title: string, author: string, year: int) returns (b: Book)
      requires Valid()
      modifies this
      ensures Valid()
      ensures b == Book(NextId(old(books)), title, author, year, AVAILABLE)
      ensures forall i | 0 <= i < |old(books)| :: old(books)[i].id != b.id
      ensures books == old(books) + [b]
      ensures store == Some(Serialize(books))
    {
      var id := MaxId(books) + 1;
      b := Book(id, title, author, year, AVAILABLE);
      books := books + [b];
      SaveBooks();
      AddPreservesInvariants(old(books), title, author, year);
      SaveLoadRoundTrip(books);
    }

    /** `delete_book`: removes the first book with the id and saves; reports whether there was one. */
    method DeleteBook(id: int) returns (found: bool)
      requires Valid()
      modifies this
      ensures Valid()
      ensures found <==> exists i | 0 <= i < |old(books)| :: old(books)[i].id == id
      ensures books == Deleted(old(books), id)
      ensures store == if found then Some(Serialize(books)) else old(store)
    {
      var k := IndexOfId(books, id);
      match k
      case None =>
        found := false;
      case Some(i) =>
        found := true;
        books := books[..i] + books[i + 1..];
        SaveBooks();
        DeletePreservesInvariants(old(books), id);
        SaveLoadRoundTrip(books);
    }

    /**
     * `find_book_by_id`: the first book in list order with the id, or
     * `None` when no book has it.
     */
    function FindBookById(id: int): (r: Option<Book>)
      reads this
      ensures r.None? <==> forall i | 0 <= i < |books| :: books[i].id != id
      ensures r.Some? ==> r.value.id == id
      ensures r.Some? ==> exists i | 0 <= i < |books| ::
                            books[i] == r.value && forall j | 0 <= j < i :: books[j].id != id
    {
      match IndexOfId(books, id)
      case None => None
      case Some(i) => Some(books[i])
    }

    /**
     * The list `search_books` displays: every book matching the keyword, in
     * list order (see `SearchResults` and the lemmas after it). It is empty,
     * the case reported as "not found", exactly when no book matches.
     */
    function SearchBooks(keyword: string): (r: seq<Book>)
      reads this
      ensures forall i | 0 <= i < |r| :: Matches(r[i], keyword) && r[i] in books
      ensures forall i | 0 <= i < |books| && Matches(books[i], keyword) :: books[i] in r
      ensures r == [] <==> forall i | 0 <= i < |books| :: !Matches(books[i], keyword)
      ensures r == SearchResults(books, keyword)
    {
      var r := SearchResults(books, keyword);
      assert r != [] ==> Matches(r[0], keyword) && r[0] in books;
      r
    }

    /**
     * `find_books`: the given list when it is non-empty, otherwise all the
     * books; `None` when that is empty too.
     */
    function FindBooks(given: Option<seq<Book>>): (r: Option<seq<Book>>)
      reads this
      ensures r.None? <==> (given.None? || given.value == []) && books == []
      ensures given.Some? && given.value != [] ==> r == given
      ensures (given.None? || given.value == []) && books != [] ==> r == Some(books)
    {
      var chosen := if given.Some? && given.value != [] then given.value else books;
      if chosen == [] then None else Some(chosen)
    }

    /**
     * `update_status`: sets the status of the first book with the id, and
     * saves, when the id is found and the status is one of the two literals;
     * otherwise changes nothing.
     */
    method UpdateStatus(id: int, newStatus: string) returns (outcome: UpdateOutcome)
      requires Valid()
      modifies this
      ensures Valid()
      ensures outcome == NotFound <==> IndexOfId(old(books), id).None?
      ensures outcome == InvalidStatus <==> IndexOfId(old(books), id).Some? && !IsAllowedStatus(newStatus)
      ensures outcome != Updated ==> books == old(books) && store == old(store)
      ensures outcome == Updated ==>
                var k := IndexOfId(old(books), id).value;
                && books == old(books)[k := old(books)[k].(status := newStatus)]
                && store == Some(Serialize(books))
    {
      var k := IndexOfId(books, id);
      match k
      case None =>
        outcome := NotFound;
      case Some(i) =>
        if newStatus == AVAILABLE || newStatus == CHECKED_OUT {
          books := books[i := books[i].(status := newStatus)];
          SaveBooks();
          SaveLoadRoundTrip(books);
          outcome := Updated;
        } else {
          outcome := InvalidStatus;
        }
    }
  }
}
