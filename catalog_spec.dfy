/**
 * The catalog's behaviour on values: what loading keeps, what saving writes,
 * which id a new book gets, which book an id finds, what a search returns and
 * what a deletion leaves. The class `Catalog.Library` is specified by these.
 */
module CatalogSpec {
  import opened Wrappers
  import opened Text
  import opened BookRecord

  predicate AllStatusesAllowed(bs: seq<Book>) {
    forall i | 0 <= i < |bs| :: IsAllowedStatus(bs[i].status)
  }

  predicate UniqueIds(bs: seq<Book>) {
    forall i, j | 0 <= i < j < |bs| :: bs[i].id != bs[j].id
  }

  // ---------------------------------------------------------------------------
  // Saving and loading

  /** What `_save_books` writes: `to_dict` of every book, in list order. */
  function Serialize(bs: seq<Book>): (es: seq<RawEntry>)
    ensures |es| == |bs|
  {
    seq(|bs|, i requires 0 <= i < |bs| => ToDict(bs[i]))
  }

  /**
   * What `load_books` builds from the decoded entries: `from_dict` of each
   * entry that passes validation, in file order; the others are skipped.
   */
  function Loaded(es: seq<RawEntry>): (bs: seq<Book>)
    ensures |bs| <= |es|
    ensures AllStatusesAllowed(bs)
    decreases |es|
  {
    if |es| == 0 then []
    else
      var e := es[|es| - 1];
      Loaded(es[..|es| - 1]) + if IsValidDict(e) then [FromDict(e)] else []
  }

  /** The file as read: `None` when it is missing or is not valid JSON, both of which load no books. */
  function LoadFile(file: Option<seq<RawEntry>>): seq<Book> {
    match file
    case None => []
    case Some(es) => Loaded(es)
  }

  /** Loading a concatenation loads each part, one after the other. */
  lemma {:induction false} LoadedAppend(a: seq<RawEntry>, b: seq<RawEntry>)
    ensures Loaded(a + b) == Loaded(a) + Loaded(b)
    decreases |b|
  {
    if |b| == 0 {
      assert a + b == a;
    } else {
      var b' := b[..|b| - 1];
      assert (a + b)[..|a + b| - 1] == a + b';
      LoadedAppend(a, b');
    }
  }

  /** A single entry loads as its book when valid and as nothing otherwise. */
  lemma LoadedSingle(e: RawEntry)
    ensures Loaded([e]) == if IsValidDict(e) then [FromDict(e)] else []
  {
  }

  /**
   * Saving then loading gives back the same books in the same order, exactly
   * when every status is one of the two literals.
   */
  lemma {:induction false} SaveLoadRoundTrip(bs: seq<Book>)
    ensures Loaded(Serialize(bs)) == bs <==> AllStatusesAllowed(bs)
    decreases |bs|
  {
    if |bs| > 0 && AllStatusesAllowed(bs) {
      var n := |bs|;
      var prefix := bs[..n - 1];
      assert Serialize(bs)[..n - 1] == Serialize(prefix);
      SaveLoadRoundTrip(prefix);
      ToDictValid(bs[n - 1]);
      FromDictToDict(bs[n - 1]);
      assert bs == prefix + [bs[n - 1]];
    }
  }

  // ---------------------------------------------------------------------------
  // Ids

  /** `max([book.id for book in books], default=0)`. */
  function MaxId(bs: seq<Book>): (m: int)
    ensures bs == [] ==> m == 0
    ensures forall i | 0 <= i < |bs| :: bs[i].id <= m
    ensures bs != [] ==> exists i | 0 <= i < |bs| :: bs[i].id == m
    decreases |bs|
  {
    if |bs| == 0 then 0
    else if |bs| == 1 then bs[0].id
    else
      var m := MaxId(bs[..|bs| - 1]);
      if bs[|bs| - 1].id > m then bs[|bs| - 1].id else m
  }

  /** The id `add_book` gives the next book. */
  function NextId(bs: seq<Book>): (id: int)
    ensures forall i | 0 <= i < |bs| :: bs[i].id < id
    ensures bs == [] ==> id == 1
  {
    MaxId(bs) + 1
  }

  /** The book `add_book` appends. */
  function NewBook(bs: seq<Book>, title: string, author: string, year: int): Book {
    Book(NextId(bs), title, author, year, AVAILABLE)
  }

  /** Adding makes the new id the largest one, so successive adds give strictly increasing ids. */
  lemma AddRaisesMaxId(bs: seq<Book>, title: string, author: string, year: int)
    ensures MaxId(bs + [NewBook(bs, title, author, year)]) == NextId(bs)
  {
  }

  /** Adding keeps ids unique and keeps every status one of the two literals. */
  lemma AddPreservesInvariants(bs: seq<Book>, title: string, author: string, year: int)
    ensures UniqueIds(bs) ==> UniqueIds(bs + [NewBook(bs, title, author, year)])
    ensures AllStatusesAllowed(bs) ==> AllStatusesAllowed(bs + [NewBook(bs, title, author, year)])
  {
  }

  // ---------------------------------------------------------------------------
  // Finding by id

  /** Position of the first book with the given id, as the generator in `find_book_by_id` scans. */
  function IndexOfId(bs: seq<Book>, id: int): (r: Option<nat>)
    ensures r.None? <==> forall i | 0 <= i < |bs| :: bs[i].id != id
    ensures r.Some? ==> r.value < |bs| && bs[r.value].id == id
    ensures r.Some? ==> forall j | 0 <= j < r.value :: bs[j].id != id
    decreases |bs|
  {
    if |bs| == 0 then None
    else if bs[0].id == id then Some(0)
    else
      match IndexOfId(bs[1..], id)
      case None => None
      case Some(k) => Some(k + 1)
  }

  // ---------------------------------------------------------------------------
  // Deleting

  /** The list after `delete_book(id)`: without the first book with that id, if there is one. */
  function Deleted(bs: seq<Book>, id: int): (r: seq<Book>)
    ensures IndexOfId(bs, id).None? ==> r == bs
    ensures IndexOfId(bs, id).Some? ==>
              var k := IndexOfId(bs, id).value;
              |r| == |bs| - 1 && r[..k] + [bs[k]] + r[k..] == bs
  {
    match IndexOfId(bs, id)
    case None => bs
    case Some(k) =>
      var r := bs[..k] + bs[k + 1..];
      assert r[..k] == bs[..k] && r[k..] == bs[k + 1..];
      assert bs == bs[..k] + [bs[k]] + bs[k + 1..];
      r
  }

  /** When ids are unique, deleting leaves no book with that id and keeps the rest unique. */
  lemma DeletePreservesInvariants(bs: seq<Book>, id: int)
    ensures UniqueIds(bs) ==> UniqueIds(Deleted(bs, id)) && forall i | 0 <= i < |Deleted(bs, id)| :: Deleted(bs, id)[i].id != id
    ensures AllStatusesAllowed(bs) ==> AllStatusesAllowed(Deleted(bs, id))
  {
    match IndexOfId(bs, id)
    case None =>
    case Some(k) =>
      RemoveAtPreservesInvariants(bs, k);
      assert Deleted(bs, id) == bs[..k] + bs[k + 1..];
  }

  /** Removing the book at position `k` keeps ids unique, leaves none with its id, and keeps statuses allowed. */
  lemma RemoveAtPreservesInvariants(bs: seq<Book>, k: nat)
    requires k < |bs|
    ensures var r := bs[..k] + bs[k + 1..];
            && (UniqueIds(bs) ==> UniqueIds(r) && forall i | 0 <= i < |r| :: r[i].id != bs[k].id)
            && (AllStatusesAllowed(bs) ==> AllStatusesAllowed(r))
  {
    var r := bs[..k] + bs[k + 1..];
    assert forall i | 0 <= i < |r| :: r[i] == if i < k then bs[i] else bs[i + 1];
  }

  /**
   * Ids are not retired: adding a book and then deleting it restores the list,
   * so the next add hands out the deleted book's id again.
   */
  lemma DeleteNewestReusesId(bs: seq<Book>, title: string, author: string, year: int)
    ensures var b := NewBook(bs, title, author, year);
            Deleted(bs + [b], b.id) == bs && NextId(Deleted(bs + [b], b.id)) == b.id
  {
    var b := NewBook(bs, title, author, year);
    var added := bs + [b];
    assert added[|bs|] == b;
    assert IndexOfId(added, b.id) == Some(|bs|);
    assert added[..|bs|] == bs;
  }

  // ---------------------------------------------------------------------------
  // Searching

  /**
   * The test of the list comprehension in `search_books`: the lower-cased
   * keyword occurs in the lower-cased title or author, or the keyword is the
   * year's decimal text.
   */
  function Matches(b: Book, keyword: string): (r: bool)
    ensures keyword == [] ==> r
    ensures Lower(keyword) == Lower(b.title) || Lower(keyword) == Lower(b.author) ==> r
    ensures IntToString(b.year) == keyword ==> r
    ensures r <==>
              || OccursIn(Lower(keyword), Lower(b.title))
              || OccursIn(Lower(keyword), Lower(b.author))
              || IntToString(b.year) == keyword
  {
    var kw := Lower(keyword);
    var title, author := Lower(b.title), Lower(b.author);
    assert title[0..] == title && author[0..] == author;
    assert IsPrefix(kw, title[0..]) || IsPrefix(kw, author[0..]) ==> Contains(title, kw) || Contains(author, kw);
    || Contains(title, kw)
    || Contains(author, kw)
    || IntToString(b.year) == keyword
  }

  /** The books that match the keyword, in list order. */
  function SearchResults(bs: seq<Book>, keyword: string): (r: seq<Book>)
    ensures forall i | 0 <= i < |r| :: Matches(r[i], keyword) && r[i] in bs
    ensures |r| <= |bs|
    ensures forall i | 0 <= i < |bs| && Matches(bs[i], keyword) :: bs[i] in r
    ensures forall b | !Matches(b, keyword) :: b !in r
    decreases |bs|
  {
    if |bs| == 0 then []
    else
      var last := bs[|bs| - 1];
      var prefix := bs[..|bs| - 1];
      assert bs == prefix + [last];
      SearchResults(prefix, keyword) + if Matches(last, keyword) then [last] else []
  }

  /** Searching a concatenation searches each part, one after the other: the result keeps list order. */
  lemma {:induction false} SearchAppend(a: seq<Book>, b: seq<Book>, keyword: string)
    ensures SearchResults(a + b, keyword) == SearchResults(a, keyword) + SearchResults(b, keyword)
    decreases |b|
  {
    if |b| == 0 {
      assert a + b == a;
    } else {
      var b', last := b[..|b| - 1], b[|b| - 1];
      var tail := if Matches(last, keyword) then [last] else [];
      assert (a + b)[..|a + b| - 1] == a + b' && (a + b)[|a + b| - 1] == last;
      assert SearchResults(a + b, keyword) == SearchResults(a + b', keyword) + tail;
      assert SearchResults(b, keyword) == SearchResults(b', keyword) + tail;
      SearchAppend(a, b', keyword);
    }
  }

  /** One step of the search: the last book is kept exactly when it matches. */
  lemma SearchLast(bs: seq<Book>, keyword: string)
    requires |bs| > 0
    ensures SearchResults(bs, keyword)
            == SearchResults(bs[..|bs| - 1], keyword) + if Matches(bs[|bs| - 1], keyword) then [bs[|bs| - 1]] else []
  {
  }

  /** Occurrences in a concatenation add up. */
  lemma CountOfAppend(x: seq<Book>, y: seq<Book>, b: Book)
    ensures multiset(x + y)[b] == multiset(x)[b] + multiset(y)[b]
  {
  }

  /** Occurrences in a list are those in all but its last element, plus the last one. */
  lemma CountOfLast(bs: seq<Book>, b: Book)
    requires |bs| > 0
    ensures multiset(bs)[b] == multiset(bs[..|bs| - 1])[b] + if bs[|bs| - 1] == b then 1 else 0
  {
    assert bs == bs[..|bs| - 1] + [bs[|bs| - 1]];
    CountOfAppend(bs[..|bs| - 1], [bs[|bs| - 1]], b);
  }

  /** A match is kept as often as it occurs in the list; anything else is dropped. */
  lemma {:induction false} SearchKeepsMultiplicity(bs: seq<Book>, keyword: string, b: Book)
    ensures multiset(SearchResults(bs, keyword))[b] == if Matches(b, keyword) then multiset(bs)[b] else 0
    decreases |bs|
  {
    if |bs| > 0 {
      var prefix, last := bs[..|bs| - 1], bs[|bs| - 1];
      SearchLast(bs, keyword);
      CountOfLast(bs, b);
      CountOfAppend(SearchResults(prefix, keyword), if Matches(last, keyword) then [last] else [], b);
      SearchKeepsMultiplicity(prefix, keyword, b);
    }
  }
}
