/**
 * What the services cache, and when a cached entry is still right.
 *
 * The services build each cached object from the database: a book's
 * details with its authors and stores, the sorted author and store lists,
 * a store's details and a store's book list. A `Catalog` is the part of the
 * tables those objects can show (every row as its DTO, and which links
 * exist); an entry is fresh when it is what a read would build from the
 * current catalog. The mutating services evict some keys; the lemmas here
 * say which keys a change can make stale, so each service can state
 * exactly which cached entries it leaves out of date.
 */
module Views {
  import opened Results
  import opened Entities
  import opened Sequences
  import opened Persistence
  import opened Caching
  import Text

  /**
   * The client-visible content of the tables: each row as its DTO, the
   * author links, and which (store, book) pairs are stocked. Audit columns
   * and stock quantities appear in no cached object.
   */
  datatype Catalog = Catalog(
    authors: set<AuthorDto>,
    books: set<BookDto>,
    stores: set<StoreDto>,
    bookAuthors: set<BookAuthor>,
    stocked: set<StoreBookKey>)

  function CatalogOf(t: Tables): (c: Catalog)
    ensures forall d :: d in c.authors <==> d.id in t.authors && d == AuthorToDto(Keyed(d.id, t.authors[d.id]))
    ensures forall d :: d in c.books <==> d.id in t.books && d == BookToDto(Keyed(d.id, t.books[d.id]))
    ensures forall d :: d in c.stores <==> d.id in t.stores && d == StoreToDto(Keyed(d.id, t.stores[d.id]))
    ensures c.bookAuthors == t.bookAuthors && c.stocked == t.storeBooks.Keys
  {
    var authors := set id | id in t.authors :: AuthorToDto(Keyed(id, t.authors[id]));
    var books := set id | id in t.books :: BookToDto(Keyed(id, t.books[id]));
    var stores := set id | id in t.stores :: StoreToDto(Keyed(id, t.stores[id]));
    assert forall d: AuthorDto | d.id in t.authors && d == AuthorToDto(Keyed(d.id, t.authors[d.id])) :: d in authors;
    assert forall d: BookDto | d.id in t.books && d == BookToDto(Keyed(d.id, t.books[d.id])) :: d in books;
    assert forall d: StoreDto | d.id in t.stores && d == StoreToDto(Keyed(d.id, t.stores[d.id])) :: d in stores;
    Catalog(authors, books, stores, t.bookAuthors, t.storeBooks.Keys)
  }

  /** Saving stamps only audit columns, which the catalog does not show. */
  lemma CatalogOfStamped(before: Tables, pending: Tables, now: Timestamp)
    ensures CatalogOf(StampTables(before, pending, now)) == CatalogOf(pending)
  {
    var t := StampTables(before, pending, now);
    forall id | id in pending.authors
      ensures AuthorToDto(Keyed(id, t.authors[id])) == AuthorToDto(Keyed(id, pending.authors[id]))
    {
      StampTablesAuthors(before, pending, now, id);
    }
    forall id | id in pending.books
      ensures BookToDto(Keyed(id, t.books[id])) == BookToDto(Keyed(id, pending.books[id]))
    {
      StampTablesBooks(before, pending, now, id);
    }
    forall id | id in pending.stores
      ensures StoreToDto(Keyed(id, t.stores[id])) == StoreToDto(Keyed(id, pending.stores[id]))
    {
      StampTablesStores(before, pending, now, id);
    }
  }

  // ---------------------------------------------------------------------
  // The cached objects, as a read builds them

  /** The authors linked to a book. */
  function AuthorsOf(c: Catalog, bookId: Id): set<AuthorDto>
  {
    set a | a in c.authors && BookAuthor(bookId, a.id) in c.bookAuthors
  }

  /** The stores that stock a book. */
  function StoresOf(c: Catalog, bookId: Id): set<StoreDto>
  {
    set s | s in c.stores && StoreBookKey(s.id, bookId) in c.stocked
  }

  /** The books a store stocks. */
  function BooksIn(c: Catalog, storeId: Id): set<BookDto>
  {
    set b | b in c.books && StoreBookKey(storeId, b.id) in c.stocked
  }

  /** A book's details: its own columns, its authors and its stores. */
  function BookDetailsOf(c: Catalog, b: BookDto): (d: BookDetailsDto)
    ensures d.id == b.id && BookSummary(d) == b
  {
    BookDetailsDto(b.id, b.isbn, b.title, b.description, AuthorsOf(c, b.id), StoresOf(c, b.id))
  }

  /** A store's details: its own columns and the books it stocks. */
  function StoreDetailsOf(c: Catalog, s: StoreDto): (d: StoreDetailsDto)
    ensures d.id == s.id && StoreSummary(d) == s
  {
    StoreDetailsDto(s.id, s.name, s.location, BooksIn(c, s.id))
  }

  function BookSummary(d: BookDetailsDto): BookDto
  {
    BookDto(d.id, d.isbn, d.title, d.description)
  }

  function StoreSummary(d: StoreDetailsDto): StoreDto
  {
    StoreDto(d.id, d.name, d.location)
  }

  /** The author list's order: last name, then first name, ordinal. */
  predicate AuthorOrder(a: AuthorDto, b: AuthorDto)
  {
    Text.StrLt(a.lastName, b.lastName) || (a.lastName == b.lastName && Text.StrLe(a.firstName, b.firstName))
  }

  /** The store list's order: name, ordinal. */
  predicate StoreOrder(a: StoreDto, b: StoreDto)
  {
    Text.StrLe(a.name, b.name)
  }

  /** A right author list: every author once, in name order. */
  ghost predicate ListsAuthors(list: seq<AuthorDto>, c: Catalog)
  {
    NoDuplicates(list) && (forall d :: d in list <==> d in c.authors) && Sorted(list, AuthorOrder)
  }

  /** A right store list: every store once, in name order. */
  ghost predicate ListsStores(list: seq<StoreDto>, c: Catalog)
  {
    NoDuplicates(list) && (forall d :: d in list <==> d in c.stores) && Sorted(list, StoreOrder)
  }

  // ---------------------------------------------------------------------
  // Freshness and coherence

  /** The cached value `v` under `k` is what a read would build from `c`. */
  ghost predicate Fresh(c: Catalog, k: CacheKey, v: CacheValue)
  {
    match k
    case BookDetails(id) =>
      v.BookDetailsValue? && v.details.id == id
      && BookSummary(v.details) in c.books && v.details == BookDetailsOf(c, BookSummary(v.details))
    case AuthorsAll => v.AuthorListValue? && ListsAuthors(v.authors, c)
    case StoresAll => v.StoreListValue? && ListsStores(v.stores, c)
    case StoreDetails(id) =>
      v.StoreDetailsValue? && v.storeDetails.id == id
      && StoreSummary(v.storeDetails) in c.stores && v.storeDetails == StoreDetailsOf(c, StoreSummary(v.storeDetails))
    case StoreBooks(id) => v.BookListValue? && v.books == BooksIn(c, id)
  }

  /** Every entry outside `stale` is fresh. */
  ghost predicate CoherentExcept(entries: map<CacheKey, CacheValue>, c: Catalog, stale: set<CacheKey>)
  {
    forall k | k in entries && k !in stale :: Fresh(c, k, entries[k])
  }

  /**
   * A read of `k` through the cache gives the right value: either it
   * misses and rebuilds, or the entry is one the cache keeps right.
   */
  ghost predicate ReadIsRight(entries: map<CacheKey, CacheValue>, c: Catalog, stale: set<CacheKey>, k: CacheKey)
  {
    k !in entries || (CoherentExcept(entries, c, stale) && k !in stale)
  }

  /** Going from `c` to `c2` keeps fresh every entry outside `affected`. */
  ghost predicate Framed(c: Catalog, c2: Catalog, affected: set<CacheKey>)
  {
    forall k, v | k !in affected && Fresh(c, k, v) :: Fresh(c2, k, v)
  }

  /**
   * A change framed by `affected` turns a cache that was right outside
   * `stale` into one that is right outside `stale` and `affected`.
   */
  lemma CoherenceCarries(entries: map<CacheKey, CacheValue>, c: Catalog, c2: Catalog, stale: set<CacheKey>, affected: set<CacheKey>)
    requires CoherentExcept(entries, c, stale) && Framed(c, c2, affected)
    ensures CoherentExcept(entries, c2, stale + affected)
  {
  }

  /**
   * A change is framed by `affected` when every view it can change is
   * named there: the author list, the store list, the details of each book
   * and store that exists, and the book list of each store.
   */
  lemma FramedWhen(c: Catalog, c2: Catalog, affected: set<CacheKey>)
    requires AuthorsAll !in affected ==> c2.authors == c.authors
    requires StoresAll !in affected ==> c2.stores == c.stores
    requires forall b | b in c.books && BookDetails(b.id) !in affected ::
      b in c2.books && AuthorsOf(c2, b.id) == AuthorsOf(c, b.id) && StoresOf(c2, b.id) == StoresOf(c, b.id)
    requires forall s | s in c.stores && StoreDetails(s.id) !in affected ::
      s in c2.stores && BooksIn(c2, s.id) == BooksIn(c, s.id)
    requires forall id: Id | StoreBooks(id) !in affected :: BooksIn(c2, id) == BooksIn(c, id)
    ensures Framed(c, c2, affected)
  {
    forall k, v | k !in affected && Fresh(c, k, v)
      ensures Fresh(c2, k, v)
    {
      match k
      case BookDetails(id) =>
        assert BookSummary(v.details) in c.books;
      case AuthorsAll =>
      case StoresAll =>
      case StoreDetails(id) =>
        assert StoreSummary(v.storeDetails) in c.stores;
      case StoreBooks(id) =>
    }
  }

  /** The cached views of every store in `ids`. */
  function StoreKeys(ids: set<Id>): (r: set<CacheKey>)
    ensures forall id :: StoreDetails(id) in r <==> id in ids
    ensures forall id :: StoreBooks(id) in r <==> id in ids
    ensures forall k | k in r :: k.StoreDetails? || k.StoreBooks?
  {
    (set id | id in ids :: StoreDetails(id)) + (set id | id in ids :: StoreBooks(id))
  }

  /** The stores that stock the book `bookId`, by key. */
  function StockingStores(c: Catalog, bookId: Id): (r: set<Id>)
    ensures forall s :: s in r <==> StoreBookKey(s, bookId) in c.stocked
  {
    var r := set k | k in c.stocked && k.bookId == bookId :: k.storeId;
    assert forall s | StoreBookKey(s, bookId) in c.stocked :: s in r;
    r
  }

  // ---------------------------------------------------------------------
  // How each change to the catalog moves the views

  /** The author links of book `bookId` to each author in `ids`. */
  function AuthorLinks(bookId: Id, ids: set<Id>): (r: set<BookAuthor>)
    ensures forall l :: l in r <==> l.bookId == bookId && l.authorId in ids
  {
    set a | a in ids :: BookAuthor(bookId, a)
  }

  /** The stock rows of book `bookId` in each store in `ids`. */
  function StockKeys(bookId: Id, ids: set<Id>): (r: set<StoreBookKey>)
    ensures forall k :: k in r <==> k.bookId == bookId && k.storeId in ids
  {
    set s | s in ids :: StoreBookKey(s, bookId)
  }

  /** A new author changes the author list and nothing else. */
  lemma AuthorAddedFrame(c: Catalog, d: AuthorDto)
    requires forall l | l in c.bookAuthors :: l.authorId != d.id
    ensures Framed(c, c.(authors := c.authors + {d}), {AuthorsAll})
  {
    var c2 := c.(authors := c.authors + {d});
    forall b | b in c.books
      ensures AuthorsOf(c2, b.id) == AuthorsOf(c, b.id)
    {
    }
    FramedWhen(c, c2, {AuthorsAll});
  }

  /** A new store changes the store list and nothing else. */
  lemma StoreAddedFrame(c: Catalog, d: StoreDto)
    requires forall k | k in c.stocked :: k.storeId != d.id
    ensures Framed(c, c.(stores := c.stores + {d}), {StoresAll})
  {
    var c2 := c.(stores := c.stores + {d});
    forall b | b in c.books
      ensures StoresOf(c2, b.id) == StoresOf(c, b.id)
    {
    }
    FramedWhen(c, c2, {StoresAll});
  }

  /** A new book with its author links and its (empty) stock rows. */
  function WithBook(c: Catalog, d: BookDto, authorIds: set<Id>, storeIds: set<Id>): Catalog
  {
    c.(books := c.books + {d},
       bookAuthors := c.bookAuthors + AuthorLinks(d.id, authorIds),
       stocked := c.stocked + StockKeys(d.id, storeIds))
  }

  /** A new book changes the views of the stores that stock it. */
  lemma BookAddedFrame(c: Catalog, d: BookDto, authorIds: set<Id>, storeIds: set<Id>)
    requires forall b | b in c.books :: b.id != d.id
    requires forall k | k in c.stocked :: k.bookId != d.id
    ensures Framed(c, WithBook(c, d, authorIds, storeIds), StoreKeys(storeIds))
  {
    var c2 := WithBook(c, d, authorIds, storeIds);
    forall b | b in c.books
      ensures AuthorsOf(c2, b.id) == AuthorsOf(c, b.id) && StoresOf(c2, b.id) == StoresOf(c, b.id)
    {
    }
    forall id: Id | StoreBooks(id) !in StoreKeys(storeIds)
      ensures BooksIn(c2, id) == BooksIn(c, id)
    {
    }
    FramedWhen(c, c2, StoreKeys(storeIds));
  }

  /** A deleted book, with its links and stock rows gone (the cascade). */
  function WithoutBook(c: Catalog, d: BookDto): Catalog
  {
    c.(books := c.books - {d},
       bookAuthors := (set l | l in c.bookAuthors && l.bookId != d.id),
       stocked := (set k | k in c.stocked && k.bookId != d.id))
  }

  /** Deleting a book changes its own details and the views of the stores that stocked it. */
  lemma BookRemovedFrame(c: Catalog, d: BookDto)
    requires forall b | b in c.books && b.id == d.id :: b == d
    ensures Framed(c, WithoutBook(c, d), {BookDetails(d.id)} + StoreKeys(StockingStores(c, d.id)))
  {
    var c2 := WithoutBook(c, d);
    var affected := {BookDetails(d.id)} + StoreKeys(StockingStores(c, d.id));
    forall b | b in c.books && BookDetails(b.id) !in affected
      ensures b in c2.books && AuthorsOf(c2, b.id) == AuthorsOf(c, b.id) && StoresOf(c2, b.id) == StoresOf(c, b.id)
    {
    }
    forall id: Id | StoreBooks(id) !in affected
      ensures BooksIn(c2, id) == BooksIn(c, id)
    {
    }
    FramedWhen(c, c2, affected);
  }

  /**
   * A book's columns replaced by `d`; a present id set replaces that
   * kind of link of the book, an absent one keeps them.
   */
  function UpdatedBook(c: Catalog, d: BookDto, authorIds: Option<set<Id>>, storeIds: Option<set<Id>>): Catalog
  {
    c.(books := (set b | b in c.books && b.id != d.id) + {d},
       bookAuthors :=
         if authorIds.Some? then (set l | l in c.bookAuthors && l.bookId != d.id) + AuthorLinks(d.id, authorIds.value)
         else c.bookAuthors,
       stocked :=
         if storeIds.Some? then (set k | k in c.stocked && k.bookId != d.id) + StockKeys(d.id, storeIds.value)
         else c.stocked)
  }

  function Present(ids: Option<set<Id>>): set<Id>
  {
    if ids.Some? then ids.value else {}
  }

  /**
   * Updating a book changes its own details and the views of every store
   * that stocks it before or after.
   */
  lemma BookUpdatedFrame(c: Catalog, d: BookDto, authorIds: Option<set<Id>>, storeIds: Option<set<Id>>)
    ensures Framed(c, UpdatedBook(c, d, authorIds, storeIds),
      {BookDetails(d.id)} + StoreKeys(StockingStores(c, d.id) + Present(storeIds)))
  {
    var c2 := UpdatedBook(c, d, authorIds, storeIds);
    var affected := {BookDetails(d.id)} + StoreKeys(StockingStores(c, d.id) + Present(storeIds));
    forall b | b in c.books && BookDetails(b.id) !in affected
      ensures b in c2.books && AuthorsOf(c2, b.id) == AuthorsOf(c, b.id) && StoresOf(c2, b.id) == StoresOf(c, b.id)
    {
    }
    forall id: Id | StoreBooks(id) !in affected
      ensures BooksIn(c2, id) == BooksIn(c, id)
    {
    }
    FramedWhen(c, c2, affected);
  }

  /** Book `bookId` stocked or no longer stocked in store `storeId`. */
  function Stocking(c: Catalog, storeId: Id, bookId: Id, present: bool): Catalog
  {
    c.(stocked := if present then c.stocked + {StoreBookKey(storeId, bookId)} else c.stocked - {StoreBookKey(storeId, bookId)})
  }

  /** A stock row added or removed changes the book's details and the store's two views. */
  lemma StockingFrame(c: Catalog, storeId: Id, bookId: Id, present: bool)
    ensures Framed(c, Stocking(c, storeId, bookId, present), {BookDetails(bookId), StoreDetails(storeId), StoreBooks(storeId)})
  {
    var c2 := Stocking(c, storeId, bookId, present);
    var affected := {BookDetails(bookId), StoreDetails(storeId), StoreBooks(storeId)};
    forall b | b in c.books && BookDetails(b.id) !in affected
      ensures StoresOf(c2, b.id) == StoresOf(c, b.id)
    {
    }
    forall s | s in c.stores && StoreDetails(s.id) !in affected
      ensures BooksIn(c2, s.id) == BooksIn(c, s.id)
    {
    }
    FramedWhen(c, c2, affected);
  }

  /** Author `authorId` linked to or unlinked from book `bookId`. */
  function Authoring(c: Catalog, bookId: Id, authorId: Id, present: bool): Catalog
  {
    c.(bookAuthors := if present then c.bookAuthors + {BookAuthor(bookId, authorId)} else c.bookAuthors - {BookAuthor(bookId, authorId)})
  }

  /** An author link added or removed changes that book's details only. */
  lemma AuthoringFrame(c: Catalog, bookId: Id, authorId: Id, present: bool)
    ensures Framed(c, Authoring(c, bookId, authorId, present), {BookDetails(bookId)})
  {
    var c2 := Authoring(c, bookId, authorId, present);
    forall b | b in c.books && BookDetails(b.id) !in {BookDetails(bookId)}
      ensures AuthorsOf(c2, b.id) == AuthorsOf(c, b.id)
    {
    }
    FramedWhen(c, c2, {BookDetails(bookId)});
  }

  // ---------------------------------------------------------------------
  // Entries that do go stale

  /**
   * Stocking a book in a new store changes the book's details: an entry
   * that was fresh for the book before is not fresh afterwards.
   */
  lemma NewStockStalesBookDetails(c: Catalog, store: StoreDto, bookId: Id, v: CacheValue)
    requires store in c.stores && StoreBookKey(store.id, bookId) !in c.stocked
    requires Fresh(c, BookDetails(bookId), v)
    ensures !Fresh(Stocking(c, store.id, bookId, true), BookDetails(bookId), v)
  {
    var c2 := Stocking(c, store.id, bookId, true);
    assert store !in StoresOf(c, bookId) && store in StoresOf(c2, bookId);
  }

  /**
   * Retitling a book changes the book list of every store that stocks it:
   * such an entry that was fresh before is not fresh afterwards.
   */
  lemma RetitleStalesStoreBooks(c: Catalog, old_: BookDto, d: BookDto, storeId: Id, v: CacheValue)
    requires old_ in c.books && d.id == old_.id && d.title != old_.title
    requires StoreBookKey(storeId, d.id) in c.stocked
    requires Fresh(c, StoreBooks(storeId), v)
    ensures !Fresh(UpdatedBook(c, d, None, None), StoreBooks(storeId), v)
  {
    var c2 := UpdatedBook(c, d, None, None);
    assert old_ in BooksIn(c, storeId);
    assert old_ !in BooksIn(c2, storeId);
  }
}
