/**
 * The book queries (src/DataAccess/BookStore.DataAccess/Repositories/BookRepository.cs):
 * lookup by ISBN, the eager-loaded detail graphs and the paged, filtered,
 * sorted listing.
 */
module BookRepository {
  import opened Results
  import opened Entities
  import opened Sequences
  import opened Persistence
  import Text

  /** `GetByIsbnAsync`: the first scanned book with this ISBN, or nothing if none has it. */
  function GetByIsbn(rows: seq<Keyed<Book>>, isbn: string): (r: Option<Keyed<Book>>)
    ensures r.Some? ==> r.value in rows && r.value.entity.isbn == isbn
    ensures r.None? <==> forall x | x in rows :: x.entity.isbn != isbn
  {
    if rows == [] then None
    else if rows[0].entity.isbn == isbn then Some(rows[0])
    else
      assert forall x | x in rows :: x == rows[0] || x in rows[1..];
      GetByIsbn(rows[1..], isbn)
  }

  /**
   * A book loaded with its links: `authors` holds the linked authors and
   * `stores` the stores it is linked to, each by key (a navigation that was
   * not included is empty).
   */
  datatype BookGraph = BookGraph(id: Id, book: Book, authors: map<Id, Author>, stores: map<Id, Store>)

  function LinkedAuthors(t: Tables, id: Id): (m: map<Id, Author>)
    ensures forall a :: a in m <==> a in t.authors && BookAuthor(id, a) in t.bookAuthors
    ensures forall a :: a in m ==> m[a] == t.authors[a]
  {
    map a | a in t.authors && BookAuthor(id, a) in t.bookAuthors :: t.authors[a]
  }

  function LinkedStores(t: Tables, id: Id): (m: map<Id, Store>)
    ensures forall s :: s in m <==> s in t.stores && StoreBookKey(s, id) in t.storeBooks
    ensures forall s :: s in m ==> m[s] == t.stores[s]
  {
    map s | s in t.stores && StoreBookKey(s, id) in t.storeBooks :: t.stores[s]
  }

  /** `GetDetailsAsync`: the book with its authors and its stores, or nothing. */
  function GetDetails(t: Tables, id: Id): (r: Option<BookGraph>)
    ensures r.None? <==> id !in t.books
    ensures r.Some? ==> r.value.id == id && r.value.book == t.books[id]
    ensures r.Some? ==> r.value.authors == LinkedAuthors(t, id) && r.value.stores == LinkedStores(t, id)
  {
    if id in t.books then Some(BookGraph(id, t.books[id], LinkedAuthors(t, id), LinkedStores(t, id))) else None
  }

  /** `GetWithAuthorsAsync`: the book with its authors only, or nothing. */
  function GetWithAuthors(t: Tables, id: Id): (r: Option<BookGraph>)
    ensures r.None? <==> id !in t.books
    ensures r.Some? ==> r.value.id == id && r.value.book == t.books[id]
    ensures r.Some? ==> r.value.authors == LinkedAuthors(t, id) && r.value.stores == map[]
  {
    if id in t.books then Some(BookGraph(id, t.books[id], LinkedAuthors(t, id), map[])) else None
  }

  // ---------------------------------------------------------------------
  // The paged listing

  /** A scanned book with the authors its `BookAuthors` include loads. */
  datatype BookRow = BookRow(row: Keyed<Book>, authors: set<Author>)

  /** The authors that `Include(b => b.BookAuthors).ThenInclude(ba => ba.Author)` loads for book `id`. */
  function AuthorsOfBook(t: Tables, id: Id): (r: set<Author>)
    ensures forall a :: a in r <==> exists x | x in t.authors :: BookAuthor(id, x) in t.bookAuthors && t.authors[x] == a
  {
    set x | x in t.authors && BookAuthor(id, x) in t.bookAuthors :: t.authors[x]
  }

  /** Book `id` as the listing query loads it. */
  function RowOf(t: Tables, id: Id): (r: BookRow)
    requires id in t.books
    ensures r.row == Keyed(id, t.books[id])
  {
    BookRow(Keyed(id, t.books[id]), AuthorsOfBook(t, id))
  }

  /** A scan of the books with their authors: every book once, in an order the model leaves open. */
  ghost predicate IsBookScan(t: Tables, rows: seq<BookRow>)
  {
    (forall i, j :: 0 <= i < j < |rows| ==> rows[i].row.id != rows[j].row.id)
    && forall x :: x in rows <==> x.row.id in t.books && x == RowOf(t, x.row.id)
  }

  /** The book query with its author include, before any criterion. */
  method ScanWithAuthors(t: Tables) returns (rows: seq<BookRow>)
    ensures IsBookScan(t, rows)
  {
    var books := Scan(t.books);
    rows := seq(|books|, i requires 0 <= i < |books| => BookRow(books[i], AuthorsOfBook(t, books[i].id)));
    forall x: BookRow | x.row.id in t.books && x == RowOf(t, x.row.id)
      ensures x in rows
    {
      assert x.row in books;
      var i :| 0 <= i < |books| && books[i] == x.row;
      assert rows[i] == x;
    }
  }

  /**
   * The title criterion applies only when it is not blank; the book's title
   * must then match the LIKE pattern "%title%". The pattern matcher is a
   * parameter: its collation is the database's.
   */
  predicate TitleMatches(r: BookRow, title: Option<string>, like: (string, string) -> bool)
  {
    Text.IsNullOrWhiteSpace(title) || like(r.row.entity.title, "%" + title.value + "%")
  }

  /**
   * The author criterion applies only when it is not blank; some linked
   * author's "First Last" must then contain the trimmed criterion.
   */
  predicate AuthorMatches(r: BookRow, authorName: Option<string>)
  {
    Text.IsNullOrWhiteSpace(authorName)
    || exists a | a in r.authors :: Text.Contains(a.firstName + " " + a.lastName, Text.Trim(authorName.value))
  }

  function Filtered(rows: seq<BookRow>, title: Option<string>, authorName: Option<string>, like: (string, string) -> bool): (r: seq<BookRow>)
    ensures forall x :: x in r <==> x in rows && TitleMatches(x, title, like) && AuthorMatches(x, authorName)
  {
    Where(rows, (x: BookRow) => TitleMatches(x, title, like) && AuthorMatches(x, authorName))
  }

  datatype SortKey = ByIsbn | ByCreatedAt | ByTitle

  /**
   * The sort column: a blank `SortBy` means "Title"; the name is compared
   * lower-cased, and anything but "isbn" or "createdat" sorts by title.
   */
  function SortKeyOf(sortBy: Option<string>): SortKey
  {
    var name := if Text.IsNullOrWhiteSpace(sortBy) then "Title" else sortBy.value;
    var key := Text.ToLowerAscii(name);
    if key == "isbn" then ByIsbn else if key == "createdat" then ByCreatedAt else ByTitle
  }

  /** A blank `SortBy` sorts by title. */
  lemma SortKeyOfBlank(sortBy: Option<string>)
    requires Text.IsNullOrWhiteSpace(sortBy)
    ensures SortKeyOf(sortBy) == ByTitle
  {
    var lower := Text.ToLowerAscii("Title");
    assert lower[0] == 't';
    assert lower != "isbn" && lower != "createdat";
  }

  /** The column name is matched regardless of letter case. */
  lemma SortKeyOfIsbn()
    ensures SortKeyOf(Some("ISBN")) == ByIsbn
  {
    assert !Text.IsWhiteSpace("ISBN"[0]);
    var lower := Text.ToLowerAscii("ISBN");
    assert lower == "isbn";
  }

  /** Any spelling of `CreatedAt`, whatever the letter case of each letter, sorts by creation time. */
  lemma SortKeyOfCreatedAt(name: string)
    requires Text.ToLowerAscii(name) == "createdat"
    ensures SortKeyOf(Some(name)) == ByCreatedAt
  {
    assert Text.ToLowerAscii(name)[0] == 'c';
    assert !Text.IsWhiteSpace(name[0]);
  }

  /** Any other non-blank column name sorts by title. */
  lemma SortKeyOfOther(sortBy: Option<string>)
    requires !Text.IsNullOrWhiteSpace(sortBy)
    requires Text.ToLowerAscii(sortBy.value) != "isbn" && Text.ToLowerAscii(sortBy.value) != "createdat"
    ensures SortKeyOf(sortBy) == ByTitle
  {
  }

  /** Ascending order on the chosen column (ordinal for text). */
  predicate KeyLe(key: SortKey, a: Book, b: Book)
  {
    match key
    case ByIsbn => Text.StrLe(a.isbn, b.isbn)
    case ByCreatedAt => a.times.createdAtUtc <= b.times.createdAtUtc
    case ByTitle => Text.StrLe(a.title, b.title)
  }

  /** `OrderBy` on the column, or `OrderByDescending` when `desc`. */
  function Order(key: SortKey, desc: bool): (BookRow, BookRow) -> bool
  {
    (a: BookRow, b: BookRow) =>
      if desc then KeyLe(key, b.row.entity, a.row.entity) else KeyLe(key, a.row.entity, b.row.entity)
  }

  lemma OrderTotal(key: SortKey, desc: bool)
    ensures Total(Order(key, desc))
  {
    forall a: BookRow, b: BookRow
      ensures Order(key, desc)(a, b) || Order(key, desc)(b, a)
    {
      var x, y := a.row.entity, b.row.entity;
      Text.StrLeTotal(x.isbn, y.isbn);
      Text.StrLeTotal(x.title, y.title);
    }
  }

  /** The filtered books in the requested order. */
  function Ordered(rows: seq<BookRow>, filter: BookFilterRequest, like: (string, string) -> bool): (r: seq<BookRow>)
    ensures multiset(r) == multiset(Filtered(rows, filter.title, filter.authorName, like))
    ensures Sorted(r, Order(SortKeyOf(filter.sortBy), filter.desc))
  {
    var order := Order(SortKeyOf(filter.sortBy), filter.desc);
    OrderTotal(SortKeyOf(filter.sortBy), filter.desc);
    SortBySorted(Filtered(rows, filter.title, filter.authorName, like), order);
    SortBy(Filtered(rows, filter.title, filter.authorName, like), order)
  }

  /** `Skip(offset).Take(pageSize)` as the database evaluates OFFSET and LIMIT. */
  function Page(s: seq<BookRow>, offset: int, pageSize: int): (r: seq<BookRow>)
    ensures |r| <= |s|
    ensures pageSize >= 0 ==> |r| <= pageSize
    ensures forall x :: x in r ==> x in s
  {
    Limit(Drop(s, offset), pageSize)
  }

  /**
   * `GetPagedAsync`: the total counts the filtered books before sorting and
   * paging; the items are the requested page of the ordered books; the page
   * number and size are echoed back.
   */
  function GetPaged(rows: seq<BookRow>, filter: BookFilterRequest, like: (string, string) -> bool): (r: PagedResult<BookRow>)
    ensures r.page == filter.page && r.pageSize == filter.pageSize
    ensures r.total == |Filtered(rows, filter.title, filter.authorName, like)|
    ensures |r.items| <= r.total
    ensures filter.pageSize >= 0 ==> |r.items| <= filter.pageSize
    ensures forall x :: x in r.items ==> x in rows && TitleMatches(x, filter.title, like) && AuthorMatches(x, filter.authorName)
  {
    var total := |Filtered(rows, filter.title, filter.authorName, like)|;
    var ordered := Ordered(rows, filter, like);
    assert forall x :: x in ordered ==> x in multiset(ordered);
    var items := Page(ordered, Skip(filter.page, filter.pageSize), filter.pageSize);
    PagedResult(items, filter.page, filter.pageSize, total)
  }

  /** The books that meet both text criteria, as the listing loads them. */
  function MatchingRows(t: Tables, title: Option<string>, authorName: Option<string>, like: (string, string) -> bool): (r: set<BookRow>)
    ensures forall x :: x in r <==> x.row.id in t.books && x == RowOf(t, x.row.id) && TitleMatches(x, title, like) && AuthorMatches(x, authorName)
  {
    set id | id in t.books && TitleMatches(RowOf(t, id), title, like) && AuthorMatches(RowOf(t, id), authorName) :: RowOf(t, id)
  }

  /**
   * Whatever order the scan meets the books in, the total is the number of
   * books that meet both criteria.
   */
  lemma GetPagedTotalCounts(t: Tables, rows: seq<BookRow>, filter: BookFilterRequest, like: (string, string) -> bool)
    requires IsBookScan(t, rows)
    ensures GetPaged(rows, filter, like).total == |MatchingRows(t, filter.title, filter.authorName, like)|
  {
    var matching := Filtered(rows, filter.title, filter.authorName, like);
    assert NoDuplicates(rows) by {
      forall i, j | 0 <= i < j < |rows|
        ensures rows[i] != rows[j]
      {
        assert rows[i].row.id != rows[j].row.id;
      }
    }
    DistinctCardinality(matching);
    assert (set x | x in matching) == MatchingRows(t, filter.title, filter.authorName, like);
  }

  /** The total depends on the text criteria only, not on the page, its size or the order. */
  lemma GetPagedTotalIgnoresPaging(rows: seq<BookRow>, f: BookFilterRequest, g: BookFilterRequest, like: (string, string) -> bool)
    requires f.title == g.title && f.authorName == g.authorName
    ensures GetPaged(rows, f, like).total == GetPaged(rows, g, like).total
  {
  }

  /**
   * For a page number of at least 1 and a non-negative page size, the
   * items are the ordered books from position (Page-1)*PageSize on, at
   * most PageSize of them.
   */
  lemma GetPagedWindow(rows: seq<BookRow>, filter: BookFilterRequest, like: (string, string) -> bool)
    requires filter.page >= 1 && filter.pageSize >= 0
    ensures var s := Ordered(rows, filter, like);
      var lo := if Skip(filter.page, filter.pageSize) < |s| then Skip(filter.page, filter.pageSize) else |s|;
      var hi := if lo + filter.pageSize < |s| then lo + filter.pageSize else |s|;
      GetPaged(rows, filter, like).items == s[lo..hi]
  {
    GetPagedItems(rows, filter, like);
    PageSlice(Ordered(rows, filter, like), Skip(filter.page, filter.pageSize), filter.pageSize,
      GetPaged(rows, filter, like).items);
  }

  /** The items are the page of the ordered rows at the offset. */
  lemma GetPagedItems(rows: seq<BookRow>, filter: BookFilterRequest, like: (string, string) -> bool)
    ensures GetPaged(rows, filter, like).items == Page(Ordered(rows, filter, like), Skip(filter.page, filter.pageSize), filter.pageSize)
  {
  }

  /** With a non-negative offset and size, a page is the slice of at most `pageSize` rows starting at the offset. */
  lemma PageSlice(s: seq<BookRow>, offset: int, pageSize: int, page: seq<BookRow>)
    requires offset >= 0 && pageSize >= 0 && page == Page(s, offset, pageSize)
    ensures var lo := if offset < |s| then offset else |s|;
      var hi := if lo + pageSize < |s| then lo + pageSize else |s|;
      page == s[lo..hi]
  {
  }

  /** Each page is itself in the requested order. */
  lemma GetPagedSorted(rows: seq<BookRow>, filter: BookFilterRequest, like: (string, string) -> bool)
    ensures Sorted(GetPaged(rows, filter, like).items, Order(SortKeyOf(filter.sortBy), filter.desc))
  {
    PageSorted(Ordered(rows, filter, like), Skip(filter.page, filter.pageSize), filter.pageSize,
      Order(SortKeyOf(filter.sortBy), filter.desc), GetPaged(rows, filter, like).items);
  }

  /**
   * A page of a sorted list is sorted, whatever the offset and size: a
   * negative offset skips nothing and a negative size takes everything,
   * so the page is always a contiguous run of the list.
   */
  lemma PageSorted(s: seq<BookRow>, offset: int, pageSize: int, le: (BookRow, BookRow) -> bool, page: seq<BookRow>)
    requires page == Page(s, offset, pageSize) && Sorted(s, le)
    ensures Sorted(page, le)
  {
    var lo := if offset <= 0 then 0 else if offset < |s| then offset else |s|;
    var d := s[lo..];
    assert Drop(s, offset) == d;
    var hi := if pageSize < 0 || pageSize > |d| then |d| else pageSize;
    assert page == d[..hi];
    forall i | 0 < i < |page|
      ensures le(page[i - 1], page[i])
    {
      assert page[i - 1] == s[lo + i - 1] && page[i] == s[lo + i];
    }
  }

  /** A page of a list without duplicates has none either. */
  lemma PageDistinct(s: seq<BookRow>, offset: int, pageSize: int)
    requires NoDuplicates(s)
    ensures NoDuplicates(Page(s, offset, pageSize))
  {
    var lo := if offset <= 0 then 0 else if offset < |s| then offset else |s|;
    assert Drop(s, offset) == s[lo..];
    NoDuplicatesSlice(s, lo, |s|);
    var d := s[lo..];
    var hi := if pageSize < 0 || pageSize > |d| then |d| else pageSize;
    assert Limit(d, pageSize) == d[..hi];
    NoDuplicatesSlice(d, 0, hi);
  }

  /** A page holds each scanned book at most once. */
  lemma GetPagedDistinct(rows: seq<BookRow>, filter: BookFilterRequest, like: (string, string) -> bool)
    requires NoDuplicates(rows)
    ensures NoDuplicates(GetPaged(rows, filter, like).items)
  {
    var s := Ordered(rows, filter, like);
    PermutationNoDuplicates(Filtered(rows, filter.title, filter.authorName, like), s);
    PageDistinct(s, Skip(filter.page, filter.pageSize), filter.pageSize);
  }

  /**
   * The pages tile the ordered list: with a positive page size, the book at
   * position i is item i % PageSize of page i / PageSize + 1.
   */
  lemma GetPagedPosition(rows: seq<BookRow>, filter: BookFilterRequest, like: (string, string) -> bool, i: int)
    requires filter.pageSize > 0 && 0 <= i < |Ordered(rows, filter, like)|
    requires filter.page == i / filter.pageSize + 1
    ensures i % filter.pageSize < |GetPaged(rows, filter, like).items|
    ensures GetPaged(rows, filter, like).items[i % filter.pageSize] == Ordered(rows, filter, like)[i]
  {
    PagePosition(Ordered(rows, filter, like), filter.pageSize, i);
  }

  lemma DivisionBounds(i: int, n: int)
    requires n > 0
    ensures (i / n) * n <= i < (i / n) * n + n
    ensures i % n == i - (i / n) * n
  {
  }

  lemma PagePosition(s: seq<BookRow>, n: int, i: int)
    requires n > 0 && 0 <= i < |s|
    ensures i % n < |Page(s, Skip(i / n + 1, n), n)|
    ensures Page(s, Skip(i / n + 1, n), n)[i % n] == s[i]
  {
    var q := i / n;
    DivisionBounds(i, n);
    var lo := Skip(q + 1, n);
    assert lo == q * n;
    PageSlice(s, lo, n, Page(s, lo, n));
  }

  /**
   * With the source's 32-bit offset, page 107374184 of size 20 wraps to a
   * negative offset, which the database treats as no offset: the request
   * gets the first page back instead of the (empty or later) page asked for.
   */
  lemma OverflowingOffsetReturnsFirstPage(s: seq<BookRow>)
    ensures Page(s, SkipAsWritten(107374184, 20), 20) == Page(s, Skip(1, 20), 20)
  {
    SkipAsWrittenOverflows();
  }
}
