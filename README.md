# Library catalog model

A Dafny model of the core of a small single-user library catalog written in
Python (`main.py`). A book is a record with an id, a title, an author, a year
and a status, which is one of the two literals "в наличии" (available) and
"выдана" (checked out). The catalog (`Library`) keeps an ordered list of books
in memory and rewrites its whole data file after every change. Loading the
file keeps only the entries that pass validation, in file order. Adding a book
gives it the largest existing id plus one. Deleting and status updates act on
the first book with the given id. A search filters by a case-insensitive
substring of title or author, or by the exact text of the year.

Modules:

- `Wrappers` (`wrappers.dfy`): `Option`, for Python's `None` results.
- `Text` (`text.dfy`): stand-ins for `str.lower`, `in` on strings and `str` on
  an `int`.
- `BookRecord` (`book.dfy`): the `Book` record, a decoded JSON entry as
  `map<string, Value>`, `to_dict`, `from_dict` and `validate_dict`.
- `CatalogSpec` (`catalog_spec.dfy`): what the catalog does, stated on
  sequences of books. This covers loading, saving, the next id, the
  first-match lookup, deletion and search, with the lemmas about them.
- `Catalog` (`catalog.dfy`): the class `Library`. It has the fields `books`
  and `store`, the data file's decoded content. Every mutating method
  overwrites `store` with the serialized list. The object invariant `Valid()`
  says two things. Every status is one of the two literals. Reading `store`
  back gives exactly `books`.
- `CatalogScenario` (`scenario.dfy`): a client that uses the class `Library`
  only through its contracts. Starting from one empty library, it checks the
  situations of the unit tests in `test.py`: looking up an unknown id, adding,
  valid and invalid status updates, deleting a missing and a present id, and
  reopening the saved file. The same walk also searches by year, which
  `test.py` does not test. A second method loads a file with one malformed
  entry.

The data file is the field `store: Option<seq<RawEntry>>`. `None` stands for a
missing file or one whose text is not valid JSON. The code catches exactly
these two cases and loads no books for either.

The code does not promise the following, and neither does the model:

- Ids are not retired for good. Deleting the newest book lets the next add
  hand out its id again (`CatalogSpec.DeleteNewestReusesId`).
- Loading does not check that ids are positive or unique.
- Loading does not check that titles and authors are non-empty.
- A failed write is neither caught nor reported.

## Model

| member | source | states |
|---|---|---|
| `Text.LowerChar` | main.py:172-173 | lower-casing leaves no ASCII or basic Cyrillic capital letter |
| `Text.Lower` | main.py:172-173 | lower-casing keeps the length, leaves no ASCII capital, and lower-casing the result again changes nothing |
| `Text.Contains` | main.py:172-173 | `p in s` holds exactly when `p` occurs in `s` at some position (`OccursIn`), the empty string everywhere |
| `Text.IntToString` | main.py:174 | the decimal text of the year is non-empty and starts with '-' exactly when the year is negative |
| `BookRecord.ToDict` | main.py:17-30 | `to_dict` writes exactly the five keys, with int id and year and string title, author and status |
| `BookRecord.FromDict` | main.py:33-49 | the book read from a well-typed dictionary writes back exactly that dictionary's five keys with their values, extra keys dropped; its status is allowed exactly when the dictionary validates |
| `BookRecord.ValidateDict` | main.py:51-72 | the loop over the required keys returns true exactly when all five keys are present, with kinds int, str, str, int and str, and the status is one of the two literals |
| `BookRecord.FromDictToDict` | main.py:17-49 | `from_dict(to_dict(b))` is `b` for every book |
| `BookRecord.ToDictValid` | main.py:62-72 | the dictionary of a book passes validation exactly when its status is one of the two literals |
| `BookRecord.ToDictFromDict` | main.py:33-49 | a well-typed dictionary with only the five keys is rebuilt exactly by `to_dict(from_dict(d))` |
| `CatalogSpec.Serialize` | main.py:110-118 | the file gets one entry per book |
| `CatalogSpec.Loaded` | main.py:97-103 | loading never yields more books than entries, and every loaded status is one of the two literals |
| `CatalogSpec.LoadedAppend` | main.py:98-102 | entries are judged independently and kept in file order: loading `a + b` gives the books of `a` followed by those of `b` |
| `CatalogSpec.LoadedSingle` | main.py:99-102 | a single entry loads as its book when it is valid and is skipped otherwise |
| `CatalogSpec.SaveLoadRoundTrip` | main.py:97-118 | saving and then loading gives back the same books in the same order, exactly when every status is one of the two literals |
| `CatalogSpec.MaxId` | main.py:131 | the result is 0 for no books, is at least every id, and is the id of some book otherwise |
| `CatalogSpec.NextId` | main.py:131 | the new id exceeds every existing id, and is 1 for an empty catalog |
| `CatalogSpec.AddRaisesMaxId` | main.py:131-133 | after an add the new id is the largest, so successive adds give strictly increasing ids |
| `CatalogSpec.AddPreservesInvariants` | main.py:131-133 | adding keeps ids unique and every status one of the two literals |
| `CatalogSpec.IndexOfId` | main.py:163 | the first position holding the id, or none exactly when no book has it |
| `CatalogSpec.Deleted` | main.py:145-147 | deleting an absent id changes nothing; otherwise the list is one shorter, and putting the removed book back at its position restores the original |
| `CatalogSpec.DeletePreservesInvariants` | main.py:145-147 | with unique ids, no book with the id is left and ids stay unique; statuses stay allowed |
| `CatalogSpec.DeleteNewestReusesId` | main.py:131-147 | adding a book and deleting it restores the list, so the next add reuses that id |
| `CatalogSpec.Matches` | main.py:172-174 | a book matches exactly when the lower-cased keyword occurs at some position of the lower-cased title or author, or the keyword is the year's decimal text; in particular the empty keyword matches every book, and so does a keyword equal to the title or the author ignoring case |
| `CatalogSpec.SearchResults` | main.py:172-174 | every result matches the keyword and comes from the list, every matching book is in the result, and no other book is |
| `CatalogSpec.SearchAppend` | main.py:172-174 | searching `a + b` gives the results of `a` followed by those of `b`, so list order is kept |
| `CatalogSpec.SearchKeepsMultiplicity` | main.py:172-174 | a matching book occurs in the result as often as in the list, and a non-matching one never |
| `CatalogScenario.SearchByYearScenario` | main.py:172-174 | of the books of 2024 and 2023, the keyword "2024" finds exactly the first |
| `Catalog.Library.constructor` | main.py:83-85 | a new library holds exactly what loading its file gives, and the invariant holds |
| `Catalog.Library.LoadBooks` | main.py:87-108 | the loop keeps the valid entries in file order, and a missing or undecodable file gives no books |
| `Catalog.Library.SaveBooks` | main.py:110-118 | the file is overwritten with the dictionaries of all books, and nothing else changes |
| `Catalog.Library.AddBook` | main.py:120-136 | appends an available book whose id is the maximum id plus one, so it differs from every id; earlier books are unchanged; the file is rewritten; the invariant is kept |
| `Catalog.Library.DeleteBook` | main.py:138-151 | reports whether the id was present; removes the first book with it and rewrites the file, or changes neither list nor file |
| `Catalog.Library.FindBookById` | main.py:153-163 | the first book in list order with the id, or `None` exactly when no book has it |
| `Catalog.Library.SearchBooks` | main.py:165-178 | the books that match the keyword, each taken from the list, with every matching book included; the result is empty, the reported "not found" case, exactly when no book matches; it is the search of the current list, so `SearchAppend` gives its order and `SearchKeepsMultiplicity` how often each book occurs |
| `Catalog.Library.FindBooks` | main.py:181-191 | a non-empty given list is returned; otherwise all books; `None` exactly when both are empty |
| `Catalog.Library.UpdateStatus` | main.py:208-225 | not found, invalid status or updated, checked in that order; an update changes only that book's status and rewrites the file; otherwise neither books nor file change; statuses stay allowed |

## Left out

- The interactive menu (`main`, main.py:228-289) is not modelled. This covers reading input and parsing integers from the terminal.
- Printed output is not modelled. This covers the diagnostics, the not-found and invalid-status messages, and `display_books`. `DeleteBook` returns a found flag and `UpdateStatus` returns an `UpdateOutcome` in their place.
- `Catalog.Library.SearchBooks` returns the matching list instead of printing it or the "not found" message.
- Real file I/O and JSON encoding are not modelled. The file is the field `store`, and the path in `data_file` is not kept. Indentation and `ensure_ascii` do not affect the content. A write that fails is not modelled.
- JSON values other than integers and strings all become `VOther`. In Python a boolean passes `isinstance(..., int)`, so the source accepts `true` as an id or year; the model rejects it.
- A JSON top level that is not a list, and list items that are not objects, are not modelled.
- Read errors other than a missing file or a JSON decode error are not modelled. Examples are a file that is not UTF-8 (`UnicodeDecodeError`), a path without read permission, and a directory. In the source these escape from `load_books` (main.py:94-108) and from the constructor instead of loading no books.
- `Text.LowerChar`: lower-cases only ASCII and the basic Cyrillic capitals U+0400 to U+042F, not all of Unicode as `str.lower` does.
- A `Book` is a value here, not a shared object. In the source, `add_book` returns the same object that sits in the list, so a caller sees a later status change through it (test.py:46-50). In the model the caller sees the change only through the library.
- `Catalog.Library.DeleteBook` removes by position. The source calls `list.remove` on the object that `find_book_by_id` found, and that object is the one at the first matching position.
