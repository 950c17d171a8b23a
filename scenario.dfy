/**
 * A client of `Catalog.Library` that walks through the situations of the
 * repository's unit tests, using only the contracts of the class.
 */
module CatalogScenario {
  import opened Wrappers
  import opened BookRecord
  import opened CatalogSpec
  import opened Text
  import opened Catalog

  /** Two adds on an empty catalog hand out ids 1 and 2, both available. */
  method AddTwoBooks(lib: Library) returns (first: Book, second: Book)
    requires lib.Valid() && lib.books == []
    modifies lib
    ensures lib.Valid() && lib.books == [first, second]
    ensures first == Book(1, "Title 1", "Author 1", 2024, AVAILABLE)
    ensures second == Book(2, "Title 2", "Author 2", 2023, AVAILABLE)
  {
    first := lib.AddBook("Title 1", "Author 1", 2024);
    second := lib.AddBook("Title 2", "Author 2", 2023);
    assert NextId([first]) == 2;
  }

  /** A bogus status is refused; a valid one changes only the status of that book. */
  method LendFirstBook(lib: Library, first: Book, second: Book) returns (lent: Book)
    requires lib.Valid() && lib.books == [first, second]
    requires first.id == 1 && second.id == 2
    modifies lib
    ensures lib.Valid() && lib.books == [lent, second]
    ensures lent == first.(status := CHECKED_OUT)
  {
    var bogus := lib.UpdateStatus(1, "bogus");
    assert bogus == InvalidStatus && lib.books == [first, second];
    var outcome := lib.UpdateStatus(1, CHECKED_OUT);
    assert outcome == Updated;
    lent := first.(status := CHECKED_OUT);
  }

  /** Deleting a missing id changes nothing; deleting id 2 removes only that book. */
  method DeleteSecondBook(lib: Library, first: Book, second: Book)
    requires lib.Valid() && lib.books == [first, second]
    requires first.id == 1 && second.id == 2
    modifies lib
    ensures lib.Valid() && lib.books == [first]
  {
    var missing := lib.DeleteBook(999);
    assert !missing && lib.books == [first, second];
    assert lib.books[1].id == 2;
    var found := lib.DeleteBook(2);
    assert found;
  }

  /**
   * One library from an empty file, through the situations of the
   * repository's unit tests: an unknown id finds nothing, two adds hand out
   * ids 1 and 2, lending the first changes its status only, deleting id 2
   * leaves the first book alone, and reopening the file gives the same books.
   * Between the adds and the lending, a search by year (not among those
   * tests) finds the first book.
   */
  method UnitTestWalkthrough() {
    var lib := new Library(None);
    assert lib.FindBookById(999) == None;

    var first, second := AddTwoBooks(lib);
    assert lib.FindBooks(None) == Some([first, second]);
    SearchByYearScenario();
    assert lib.SearchBooks("2024") == [first];

    var lent := LendFirstBook(lib, first, second);
    assert lib.FindBookById(1) == Some(lent) && lib.FindBookById(1).value.status == CHECKED_OUT;

    DeleteSecondBook(lib, lent, second);
    var reopened := new Library(lib.store);
    assert reopened.books == [lent];
  }

  /** Of a valid entry and one holding only an id, loading keeps just the valid one. */
  method LoadSkipsMalformedEntry() {
    var valid: RawEntry := map["id" := VInt(1), "title" := VStr("Valid Book"), "author" := VStr("a3"),
                               "year" := VInt(2003), "status" := VStr(AVAILABLE)];
    var partial: RawEntry := map["id" := VInt(2)];
    assert IsValidDict(valid) && !IsValidDict(partial);
    LoadedSingle(valid);
    LoadedSingle(partial);
    LoadedAppend([valid], [partial]);
    assert [valid] + [partial] == [valid, partial];
    assert FromDict(valid) == Book(1, "Valid Book", "a3", 2003, AVAILABLE);
    var lib := new Library(Some([valid, partial]));
    assert lib.books == [Book(1, "Valid Book", "a3", 2003, AVAILABLE)];
  }

  /** A text without the digit '0' once lower-cased does not contain "2024", ignoring case. */
  lemma LacksYearKeyword(text: string)
    requires '0' !in Lower(text)
    ensures !Contains(Lower(text), Lower("2024"))
  {
    assert Lower("2024") == "2024";
    MissingCharNotContained(Lower(text), "2024", '0');
  }

  /** The lower-cased title and author of the second book. */
  lemma SecondBookLowered()
    ensures Lower("Title 2") == "title 2" && Lower("Author 2") == "author 2"
  {
  }

  /** Neither the title nor the author of the second book contains "2024", ignoring case. */
  lemma SecondBookLacksKeyword()
    ensures !Contains(Lower("Title 2"), Lower("2024"))
    ensures !Contains(Lower("Author 2"), Lower("2024"))
  {
    SecondBookLowered();
    LacksYearKeyword("Title 2");
    LacksYearKeyword("Author 2");
  }

  /** The decimal text of 2023 is not "2024". */
  lemma OtherYearText()
    ensures IntToString(2023) != "2024"
  {
    assert IntToString(2023) == "2023";
    assert "2023"[3] != "2024"[3];
  }

  /** The book of 2023 does not match "2024". */
  lemma OtherYearMisses()
    ensures !Matches(Book(2, "Title 2", "Author 2", 2023, AVAILABLE), "2024")
  {
    SecondBookLacksKeyword();
    OtherYearText();
  }

  /** Of two books where only the first matches, a search returns just the first. */
  lemma SearchFirstOfTwo(first: Book, second: Book, keyword: string)
    requires Matches(first, keyword) && !Matches(second, keyword)
    ensures SearchResults([first, second], keyword) == [first]
  {
    assert [first, second][..1] == [first];
    assert [first][..0] == [];
  }

  /** Searching "2024" finds the book of that year and not the one of 2023. */
  lemma SearchByYearScenario()
    ensures var first := Book(1, "Title 1", "Author 1", 2024, AVAILABLE);
            var second := Book(2, "Title 2", "Author 2", 2023, AVAILABLE);
            SearchResults([first, second], "2024") == [first]
  {
    var first := Book(1, "Title 1", "Author 1", 2024, AVAILABLE);
    var second := Book(2, "Title 2", "Author 2", 2023, AVAILABLE);
    assert IntToString(2024) == "2024";
    OtherYearMisses();
    SearchFirstOfTwo(first, second, "2024");
  }
}
