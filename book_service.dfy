/**
 * The book service (src/BusinessLogic/BookStore.BusinessLogic/Services/BookService.cs):
 * creation with the ISBN check, update, delete, the cached details read,
 * the paged listing, and linking or unlinking an author.
 */
module BookService {
  import opened Results
  import opened Entities
  import opened Sequences
  import opened Persistence
  import opened Transactions
  import opened Caching
  import opened Views
  import BookRepository

  const DuplicateIsbn: string := "Book with the same ISBN already exists."
  const BookNotFound: string := "Book not found."
  const AuthorNotFound: string := "Author not found."
  const AuthorNotAssigned: string := "Author is not assigned to this book."

  // ---------------------------------------------------------------------
  // The requested links

  /** The requested keys that name existing rows; an omitted list requests none. */
  function Requested(ids: Option<seq<Id>>, existing: set<Id>): (r: set<Id>)
    ensures r <= existing
    ensures forall a :: a in r <==> ids.Some? && a in ids.value && a in existing
  {
    if ids.None? then {} else set a | a in ids.value && a in existing
  }

  /** What an update does to one kind of link: an omitted list keeps them, a present one replaces them. */
  function Replacing(ids: Option<seq<Id>>, existing: set<Id>): (r: Option<set<Id>>)
    ensures r.None? <==> ids.None?
    ensures r.Some? ==> r.value == Requested(ids, existing)
  {
    if ids.None? then None else Some(Requested(ids, existing))
  }

  /** New stock rows: each key with quantity 0. */
  function ZeroStock(keys: set<StoreBookKey>): (m: map<StoreBookKey, int>)
    ensures m.Keys == keys && forall k | k in m :: m[k] == 0
  {
    map k | k in keys :: 0
  }

  // ---------------------------------------------------------------------
  // How each operation changes the tables

  predicate IsbnTaken(t: Tables, isbn: string)
  {
    exists x | x in t.books :: t.books[x].isbn == isbn
  }

  /** Over a full scan, the ISBN lookup finds nothing exactly when no book has that ISBN. */
  lemma GetByIsbnDecidesTaken(t: Tables, rows: seq<Keyed<Book>>, isbn: string)
    requires forall x :: x in rows <==> x.id in t.books && t.books[x.id] == x.entity
    ensures BookRepository.GetByIsbn(rows, isbn).None? <==> !IsbnTaken(t, isbn)
  {
    if IsbnTaken(t, isbn) {
      var x :| x in t.books && t.books[x].isbn == isbn;
      assert Keyed(x, t.books[x]) in rows;
    }
  }

  /** Book `b` inserted under `id`, linked to the authors `a` and stocked (quantity 0) in the stores `s`. */
  function WithNewBook(t: Tables, id: Id, b: Book, a: set<Id>, s: set<Id>): Tables
  {
    t.(books := t.books[id := b],
       bookAuthors := t.bookAuthors + AuthorLinks(id, a),
       storeBooks := t.storeBooks + ZeroStock(StockKeys(id, s)))
  }

  /**
   * Book `id` with new title and description; a present id set replaces
   * that kind of link of the book (re-created stock rows start at 0).
   */
  function WithUpdatedBook(t: Tables, id: Id, title: string, description: Option<string>, a: Option<set<Id>>, s: Option<set<Id>>): Tables
    requires id in t.books
  {
    t.(books := t.books[id := t.books[id].(title := title, description := description)],
       bookAuthors :=
         if a.Some? then (set l | l in t.bookAuthors && l.bookId != id) + AuthorLinks(id, a.value)
         else t.bookAuthors,
       storeBooks :=
         if s.Some? then (map k | k in t.storeBooks && k.bookId != id :: t.storeBooks[k]) + ZeroStock(StockKeys(id, s.value))
         else t.storeBooks)
  }

  /**
   * The edited row as saved: the change tracker marks it modified, and the
   * save stamps its update time, only when the title or description changed.
   */
  function Touched(b: Book, title: string, description: Option<string>, now: Timestamp): Book
  {
    if b.title == title && b.description == description then b
    else b.(title := title, description := description, times := b.times.(updatedAtUtc := Some(now)))
  }

  /** Book `id` deleted together with its links and stock rows (the cascade). */
  function WithoutBookRows(t: Tables, id: Id): Tables
  {
    t.(books := t.books - {id},
       bookAuthors := (set l | l in t.bookAuthors && l.bookId != id),
       storeBooks := (map k | k in t.storeBooks && k.bookId != id :: t.storeBooks[k]))
  }

  /** The author link of a book added or removed. */
  function WithLink(t: Tables, link: BookAuthor, present: bool): Tables
  {
    t.(bookAuthors := if present then t.bookAuthors + {link} else t.bookAuthors - {link})
  }

  // ---------------------------------------------------------------------
  // Each change keeps the constraints

  /** A new book with an unused ISBN, linked to existing authors and stores, keeps the constraints. */
  lemma NewBookConstraints(t: Tables, id: Id, b: Book, a: set<Id>, s: set<Id>)
    requires Constraints(t) && id !in t.books && !IsbnTaken(t, b.isbn)
    requires a <= t.authors.Keys && s <= t.stores.Keys
    ensures Constraints(WithNewBook(t, id, b, a, s))
  {
    var t2 := WithNewBook(t, id, b, a, s);
    forall x, y | x in t2.books && y in t2.books && t2.books[x].isbn == t2.books[y].isbn
      ensures x == y
    {
      if x != id && y != id {
        assert t.books[x].isbn == t.books[y].isbn;
      }
    }
  }

  /** An update changes no ISBN and links only existing rows, so it keeps the constraints. */
  lemma UpdateConstraints(t: Tables, id: Id, title: string, description: Option<string>, a: Option<set<Id>>, s: Option<set<Id>>)
    requires Constraints(t) && id in t.books
    requires a.Some? ==> a.value <= t.authors.Keys
    requires s.Some? ==> s.value <= t.stores.Keys
    ensures Constraints(WithUpdatedBook(t, id, title, description, a, s))
  {
    var t2 := WithUpdatedBook(t, id, title, description, a, s);
    assert forall x | x in t2.books :: t2.books[x].isbn == t.books[x].isbn;
  }

  /** The cascade leaves no link to the deleted book, so the constraints still hold. */
  lemma DeleteConstraints(t: Tables, id: Id)
    requires Constraints(t)
    ensures Constraints(WithoutBookRows(t, id))
  {
  }

  /** Linking an existing author to an existing book, or unlinking one, keeps the constraints. */
  lemma LinkConstraints(t: Tables, link: BookAuthor, present: bool)
    requires Constraints(t)
    requires present ==> link.bookId in t.books && link.authorId in t.authors
    ensures Constraints(WithLink(t, link, present))
  {
  }

  // ---------------------------------------------------------------------
  // What the attach loops build

  /** One link per loaded author, in load order, is one link per requested existing author. */
  lemma AttachedAuthorLinks(t: Tables, bookId: Id, ids: seq<Id>, authors: seq<Keyed<Author>>, links: seq<BookAuthor>)
    requires DistinctIds(authors)
    requires forall x :: x in authors <==> x.id in t.authors && t.authors[x.id] == x.entity && x.id in ids
    requires |links| == |authors| && forall j :: 0 <= j < |authors| ==> links[j] == BookAuthor(bookId, authors[j].id)
    ensures NoDuplicates(links)
    ensures forall l :: l in links <==> l in AuthorLinks(bookId, Requested(Some(ids), t.authors.Keys))
  {
    forall i, j | 0 <= i < j < |links|
      ensures links[i] != links[j]
    {
      assert authors[i].id != authors[j].id;
    }
    forall l | l in AuthorLinks(bookId, Requested(Some(ids), t.authors.Keys))
      ensures l in links
    {
      var x := Keyed(l.authorId, t.authors[l.authorId]);
      assert x in authors;
      var j :| 0 <= j < |authors| && authors[j] == x;
      assert links[j] == l;
    }
  }

  /** One stock row per loaded store, in load order, is one row per requested existing store. */
  lemma AttachedStockKeys(t: Tables, bookId: Id, ids: seq<Id>, stores: seq<Keyed<Store>>, stock: seq<StoreBookKey>)
    requires DistinctIds(stores)
    requires forall x :: x in stores <==> x.id in t.stores && t.stores[x.id] == x.entity && x.id in ids
    requires |stock| == |stores| && forall j :: 0 <= j < |stores| ==> stock[j] == StoreBookKey(stores[j].id, bookId)
    ensures NoDuplicates(stock)
    ensures forall k :: k in stock <==> k in StockKeys(bookId, Requested(Some(ids), t.stores.Keys))
  {
    forall i, j | 0 <= i < j < |stock|
      ensures stock[i] != stock[j]
    {
      assert stores[i].id != stores[j].id;
    }
    forall k | k in StockKeys(bookId, Requested(Some(ids), t.stores.Keys))
      ensures k in stock
    {
      var x := Keyed(k.storeId, t.stores[k.storeId]);
      assert x in stores;
      var j :| 0 <= j < |stores| && stores[j] == x;
      assert stock[j] == k;
    }
  }

  /** The links the author loop built, as the set the join table holds. */
  lemma LinkSet(bookId: Id, links: seq<BookAuthor>, a: set<Id>)
    requires forall l :: l in links <==> l in AuthorLinks(bookId, a)
    ensures (set l | l in links) == AuthorLinks(bookId, a)
  {
  }

  /** The rows the store loop built, as the stock rows the join table holds. */
  lemma StockSet(bookId: Id, stock: seq<StoreBookKey>, s: set<Id>)
    requires forall k :: k in stock <==> k in StockKeys(bookId, s)
    ensures ZeroStock(set k | k in stock) == ZeroStock(StockKeys(bookId, s))
  {
    assert (set k | k in stock) == StockKeys(bookId, s);
  }

  /** Evicting an entry and then caching a value under its key caches that value. */
  lemma EvictThenSet(m: map<CacheKey, CacheValue>, k: CacheKey, v: CacheValue)
    ensures (m - {k})[k := v] == m[k := v]
  {
  }

  // ---------------------------------------------------------------------
  // What each save stamps

  /** Saving a new book stamps its creation time and nothing else. */
  lemma StampNewBook(t: Tables, id: Id, b: Book, a: set<Id>, s: set<Id>, now: Timestamp)
    requires id !in t.books
    ensures StampTables(t, WithNewBook(t, id, b, a, s), now)
      == WithNewBook(t, id, b.(times := b.times.(createdAtUtc := now)), a, s)
  {
    var pending := WithNewBook(t, id, b, a, s);
    var r := StampTables(t, pending, now);
    var expected := WithNewBook(t, id, b.(times := b.times.(createdAtUtc := now)), a, s);
    forall x | x in pending.books
      ensures r.books[x] == expected.books[x]
    {
      StampTablesBooks(t, pending, now, x);
    }
    forall x | x in pending.authors
      ensures r.authors[x] == t.authors[x]
    {
      StampTablesAuthors(t, pending, now, x);
    }
    forall x | x in pending.stores
      ensures r.stores[x] == t.stores[x]
    {
      StampTablesStores(t, pending, now, x);
    }
  }

  /** Saving an update stamps the book's update time exactly when its columns changed. */
  lemma StampUpdatedBook(t: Tables, id: Id, title: string, description: Option<string>, a: Option<set<Id>>, s: Option<set<Id>>, now: Timestamp)
    requires id in t.books
    ensures StampTables(t, WithUpdatedBook(t, id, title, description, a, s), now)
      == WithUpdatedBook(t, id, title, description, a, s).(books := t.books[id := Touched(t.books[id], title, description, now)])
  {
    var pending := WithUpdatedBook(t, id, title, description, a, s);
    var r := StampTables(t, pending, now);
    var expected := t.books[id := Touched(t.books[id], title, description, now)];
    forall x | x in pending.books
      ensures r.books[x] == expected[x]
    {
      StampTablesBooks(t, pending, now, x);
    }
    forall x | x in pending.authors
      ensures r.authors[x] == t.authors[x]
    {
      StampTablesAuthors(t, pending, now, x);
    }
    forall x | x in pending.stores
      ensures r.stores[x] == t.stores[x]
    {
      StampTablesStores(t, pending, now, x);
    }
  }

  /** A delete adds and modifies no row, so it stamps nothing. */
  lemma StampDeletedBook(t: Tables, id: Id, now: Timestamp)
    ensures StampTables(t, WithoutBookRows(t, id), now) == WithoutBookRows(t, id)
  {
    var pending := WithoutBookRows(t, id);
    var r := StampTables(t, pending, now);
    forall x | x in pending.books
      ensures r.books[x] == pending.books[x]
    {
      StampTablesBooks(t, pending, now, x);
    }
    forall x | x in pending.authors
      ensures r.authors[x] == pending.authors[x]
    {
      StampTablesAuthors(t, pending, now, x);
    }
    forall x | x in pending.stores
      ensures r.stores[x] == pending.stores[x]
    {
      StampTablesStores(t, pending, now, x);
    }
  }

  // ---------------------------------------------------------------------
  // How each change moves the catalog, and which cached views go stale

  lemma CatalogWithNewBook(t: Tables, id: Id, b: Book, a: set<Id>, s: set<Id>)
    requires id !in t.books
    ensures CatalogOf(WithNewBook(t, id, b, a, s)) == WithBook(CatalogOf(t), BookToDto(Keyed(id, b)), a, s)
  {
    var t2 := WithNewBook(t, id, b, a, s);
    assert CatalogOf(t2).books == CatalogOf(t).books + {BookToDto(Keyed(id, b))};
    assert CatalogOf(t2).stocked == CatalogOf(t).stocked + StockKeys(id, s);
  }

  /**
   * After a new book is saved and its details entry evicted, the cache is
   * right outside `stale` and the views of the stores now stocking it.
   */
  lemma NewBookCoherence(entries: map<CacheKey, CacheValue>, t: Tables, id: Id, b: Book, a: set<Id>, s: set<Id>, t2: Tables, stale: set<CacheKey>)
    requires ForeignKeys(t) && id !in t.books
    requires CatalogOf(t2) == CatalogOf(WithNewBook(t, id, b, a, s))
    requires CoherentExcept(entries, CatalogOf(t), stale)
    ensures CoherentExcept(entries - {BookDetails(id)}, CatalogOf(t2), stale + StoreKeys(s))
  {
    var c := CatalogOf(t);
    CatalogWithNewBook(t, id, b, a, s);
    BookAddedFrame(c, BookToDto(Keyed(id, b)), a, s);
    CoherenceCarries(entries, c, CatalogOf(t2), stale, StoreKeys(s));
  }

  lemma CatalogWithUpdatedBook(t: Tables, id: Id, title: string, description: Option<string>, a: Option<set<Id>>, s: Option<set<Id>>)
    requires id in t.books
    ensures CatalogOf(WithUpdatedBook(t, id, title, description, a, s))
      == UpdatedBook(CatalogOf(t), BookDto(id, t.books[id].isbn, title, description), a, s)
  {
    var t2 := WithUpdatedBook(t, id, title, description, a, s);
    var c := CatalogOf(t);
    var d := BookDto(id, t.books[id].isbn, title, description);
    assert CatalogOf(t2).books == (set x | x in c.books && x.id != id) + {d};
    if s.Some? {
      assert CatalogOf(t2).stocked == (set k | k in c.stocked && k.bookId != id) + StockKeys(id, s.value);
    }
  }

  /**
   * After an update is saved and the book's details entry evicted, the
   * cache is right outside `stale` and the views of every store that
   * stocked the book before or stocks it after.
   */
  lemma UpdateCoherence(entries: map<CacheKey, CacheValue>, t: Tables, id: Id, title: string, description: Option<string>,
                        a: Option<set<Id>>, s: Option<set<Id>>, t2: Tables, stale: set<CacheKey>)
    requires id in t.books
    requires CatalogOf(t2) == CatalogOf(WithUpdatedBook(t, id, title, description, a, s))
    requires CoherentExcept(entries, CatalogOf(t), stale)
    ensures CoherentExcept(entries - {BookDetails(id)}, CatalogOf(t2), stale + StoreKeys(StockingStores(CatalogOf(t), id) + Present(s)))
  {
    var c := CatalogOf(t);
    var d := BookDto(id, t.books[id].isbn, title, description);
    CatalogWithUpdatedBook(t, id, title, description, a, s);
    BookUpdatedFrame(c, d, a, s);
    CoherenceCarries(entries, c, CatalogOf(t2), stale, {BookDetails(id)} + StoreKeys(StockingStores(c, id) + Present(s)));
  }

  lemma CatalogWithoutBookRows(t: Tables, id: Id)
    requires id in t.books
    ensures CatalogOf(WithoutBookRows(t, id)) == WithoutBook(CatalogOf(t), BookToDto(Keyed(id, t.books[id])))
  {
    var t2 := WithoutBookRows(t, id);
    var c := CatalogOf(t);
    assert CatalogOf(t2).books == c.books - {BookToDto(Keyed(id, t.books[id]))};
    assert CatalogOf(t2).stocked == (set k | k in c.stocked && k.bookId != id);
  }

  /**
   * After a delete is saved and the book's details entry evicted, the
   * cache is right outside `stale` and the views of the stores that stocked it.
   */
  lemma DeleteCoherence(entries: map<CacheKey, CacheValue>, t: Tables, id: Id, t2: Tables, stale: set<CacheKey>)
    requires id in t.books
    requires CatalogOf(t2) == CatalogOf(WithoutBookRows(t, id))
    requires CoherentExcept(entries, CatalogOf(t), stale)
    ensures CoherentExcept(entries - {BookDetails(id)}, CatalogOf(t2), stale + StoreKeys(StockingStores(CatalogOf(t), id)))
  {
    var c := CatalogOf(t);
    var d := BookToDto(Keyed(id, t.books[id]));
    CatalogWithoutBookRows(t, id);
    BookRemovedFrame(c, d);
    CoherenceCarries(entries, c, CatalogOf(t2), stale, {BookDetails(id)} + StoreKeys(StockingStores(c, id)));
  }

  /**
   * Linking or unlinking an author changes that book's details only, so
   * once that entry is evicted the cache is exactly as right as before.
   */
  lemma LinkCoherence(entries: map<CacheKey, CacheValue>, t: Tables, link: BookAuthor, present: bool, t2: Tables, stale: set<CacheKey>)
    requires CatalogOf(t2) == CatalogOf(WithLink(t, link, present))
    requires CoherentExcept(entries, CatalogOf(t), stale)
    ensures CoherentExcept(entries - {BookDetails(link.bookId)}, CatalogOf(t2), stale)
  {
    var c := CatalogOf(t);
    assert CatalogOf(t2) == Authoring(c, link.bookId, link.authorId, present);
    AuthoringFrame(c, link.bookId, link.authorId, present);
    CoherenceCarries(entries, c, CatalogOf(t2), stale, {BookDetails(link.bookId)});
  }

  // ---------------------------------------------------------------------
  // The details object a read builds

  /**
   * `BookAuthors.Select(ba => ba.Author).Distinct()` and the same for the
   * stores, each mapped to its DTO, with the book's own columns.
   */
  function DetailsOf(g: BookRepository.BookGraph): BookDetailsDto
  {
    BookDetailsDto(g.id, g.book.isbn, g.book.title, g.book.description,
      set a | a in g.authors :: AuthorToDto(Keyed(a, g.authors[a])),
      set s | s in g.stores :: StoreToDto(Keyed(s, g.stores[s])))
  }

  /** The details built from a loaded book are the book's view of the catalog. */
  lemma LoadedBookIsView(t: Tables, id: Id)
    requires id in t.books
    ensures DetailsOf(BookRepository.GetDetails(t, id).value) == BookDetailsOf(CatalogOf(t), BookToDto(Keyed(id, t.books[id])))
    ensures BookToDto(Keyed(id, t.books[id])) in CatalogOf(t).books
  {
    var g := BookRepository.GetDetails(t, id).value;
    var c := CatalogOf(t);
    var details := DetailsOf(g);
    forall x | x in AuthorsOf(c, id)
      ensures x in details.authors
    {
      assert x.id in g.authors;
    }
    forall x | x in StoresOf(c, id)
      ensures x in details.stores
    {
      assert x.id in g.stores;
    }
  }

  /** `Select(b => new BookDto(...))` over a page of loaded books, with the paging fields copied. */
  function ToDtoPage(p: PagedResult<BookRepository.BookRow>): (r: PagedResult<BookDto>)
    ensures r.page == p.page && r.pageSize == p.pageSize && r.total == p.total
    ensures |r.items| == |p.items| && forall i :: 0 <= i < |p.items| ==> r.items[i] == BookToDto(p.items[i].row)
  {
    PagedResult(seq(|p.items|, i requires 0 <= i < |p.items| => BookToDto(p.items[i].row)), p.page, p.pageSize, p.total)
  }

  class BookService {
    const db: BookStoreDbContext
    const unitOfWork: UnitOfWork
    const cache: MemoryCache

    ghost predicate Valid()
      reads db
    {
      unitOfWork.context == db && db.Valid()
    }

    constructor(db: BookStoreDbContext, unitOfWork: UnitOfWork, cache: MemoryCache)
      requires unitOfWork.context == db
      ensures this.db == db && this.unitOfWork == unitOfWork && this.cache == cache
    {
      this.db := db;
      this.unitOfWork := unitOfWork;
      this.cache := cache;
    }

    /** The loop of `AttachAuthorsAsync`: one link from the book to each loaded author, in order. */
    static method LinkEach(bookId: Id, authors: seq<Keyed<Author>>) returns (links: seq<BookAuthor>)
      ensures |links| == |authors| && forall j :: 0 <= j < |authors| ==> links[j] == BookAuthor(bookId, authors[j].id)
    {
      links := [];
      var i := 0;
      while i < |authors|
        invariant 0 <= i <= |authors|
        invariant |links| == i
        invariant forall j :: 0 <= j < i ==> links[j] == BookAuthor(bookId, authors[j].id)
      {
        links := links + [BookAuthor(bookId, authors[i].id)];
        i := i + 1;
      }
    }

    /** The loop of `AttachStoresAsync`: one stock row of the book in each loaded store, in order. */
    static method StockEach(bookId: Id, stores: seq<Keyed<Store>>) returns (stock: seq<StoreBookKey>)
      ensures |stock| == |stores| && forall j :: 0 <= j < |stores| ==> stock[j] == StoreBookKey(stores[j].id, bookId)
    {
      stock := [];
      var i := 0;
      while i < |stores|
        invariant 0 <= i <= |stores|
        invariant |stock| == i
        invariant forall j :: 0 <= j < i ==> stock[j] == StoreBookKey(stores[j].id, bookId)
      {
        stock := stock + [StoreBookKey(stores[i].id, bookId)];
        i := i + 1;
      }
    }

    /**
     * `AttachAuthorsAsync`: one new link from book `bookId` to each existing
     * author whose key was requested, each once however often it was requested.
     */
    method AttachAuthors(bookId: Id, authorIds: Option<seq<Id>>) returns (links: seq<BookAuthor>)
      ensures NoDuplicates(links)
      ensures forall l :: l in links <==> l in AuthorLinks(bookId, Requested(authorIds, db.tables.authors.Keys))
    {
      links := [];
      if authorIds.None? {
        assert Requested(authorIds, db.tables.authors.Keys) == {};
        return;
      }
      var ids := Distinct(authorIds.value);
      if |ids| == 0 {
        assert Requested(authorIds, db.tables.authors.Keys) == {};
        return;
      }
      var rows := Scan(db.tables.authors);
      var authors := RowsWithIds(rows, ids);
      links := LinkEach(bookId, authors);
      AttachedAuthorLinks(db.tables, bookId, authorIds.value, authors, links);
    }

    /**
     * `AttachStoresAsync`: one new stock row, quantity 0, of book `bookId`
     * in each existing store whose key was requested, each once.
     */
    method AttachStores(bookId: Id, storeIds: Option<seq<Id>>) returns (stock: seq<StoreBookKey>)
      ensures NoDuplicates(stock)
      ensures forall k :: k in stock <==> k in StockKeys(bookId, Requested(storeIds, db.tables.stores.Keys))
    {
      stock := [];
      if storeIds.None? {
        assert Requested(storeIds, db.tables.stores.Keys) == {};
        return;
      }
      var ids := Distinct(storeIds.value);
      if |ids| == 0 {
        assert Requested(storeIds, db.tables.stores.Keys) == {};
        return;
      }
      var rows := Scan(db.tables.stores);
      var stores := RowsWithIds(rows, ids);
      stock := StockEach(bookId, stores);
      AttachedStockKeys(db.tables, bookId, storeIds.value, stores, stock);
    }

    /**
     * `CreateAsync`: refuses an ISBN some book has; otherwise inserts the
     * book, linked to the requested authors and stocked (quantity 0) in the
     * requested stores that exist, in a transaction, evicts its details
     * entry and returns its details as a fresh read builds and caches them.
     * The views of the stores now stocking it are not evicted.
     */
    method Create(request: CreateBookRequest, now: Timestamp, ghost stale: set<CacheKey>) returns (r: Result<BookDetailsDto>)
      requires Valid()
      modifies db`tables, db`nextId, cache
      ensures Valid()
      ensures IsbnTaken(old(db.tables), request.isbn) ==>
        r == Fail(DuplicateIsbn) && db.tables == old(db.tables) && cache.entries == old(cache.entries)
      ensures !IsbnTaken(old(db.tables), request.isbn) ==>
        r.Ok? && r.value.id !in old(db.tables).books
        && db.tables == WithNewBook(old(db.tables), r.value.id,
             Book(request.isbn, request.title, request.description, Times(now, None)),
             Requested(request.authorIds, old(db.tables).authors.Keys),
             Requested(request.storeIds, old(db.tables).stores.Keys))
        && r.value == BookDetailsOf(CatalogOf(db.tables), BookDto(r.value.id, request.isbn, request.title, request.description))
        && cache.entries == old(cache.entries)[BookDetails(r.value.id) := BookDetailsValue(r.value)]
      ensures CoherentExcept(old(cache.entries), CatalogOf(old(db.tables)), stale) ==>
        CoherentExcept(cache.entries, CatalogOf(db.tables), stale + StoreKeys(Requested(request.storeIds, old(db.tables).stores.Keys)))
    {
      var rows := Scan(db.tables.books);
      var existing := BookRepository.GetByIsbn(rows, request.isbn);
      GetByIsbnDecidesTaken(db.tables, rows, request.isbn);
      if existing.Some? {
        return Fail(DuplicateIsbn);
      }
      ghost var before := db.tables;
      ghost var authorIds := Requested(request.authorIds, before.authors.Keys);
      ghost var storeIds := Requested(request.storeIds, before.stores.Keys);
      var id := db.NewId();
      var book := Book(request.isbn, request.title, request.description, Unstamped);
      var links := AttachAuthors(id, request.authorIds);
      var stock := AttachStores(id, request.storeIds);
      var tx := unitOfWork.BeginTransaction();
      LinkSet(id, links, authorIds);
      StockSet(id, stock, storeIds);
      var pending := db.tables.(books := db.tables.books[id := book],
                                bookAuthors := db.tables.bookAuthors + (set l | l in links),
                                storeBooks := db.tables.storeBooks + ZeroStock(set k | k in stock));
      assert pending == WithNewBook(before, id, book, authorIds, storeIds);
      NewBookConstraints(before, id, book, authorIds, storeIds);
      var error := unitOfWork.SaveChanges(pending, now);
      var thrown := unitOfWork.CompleteTransaction(tx, error, None);
      cache.Remove(BookDetails(id));
      StampNewBook(before, id, book, authorIds, storeIds, now);
      CatalogOfStamped(before, pending, now);
      if CoherentExcept(old(cache.entries), CatalogOf(before), stale) {
        NewBookCoherence(old(cache.entries), before, id, book, authorIds, storeIds, db.tables, stale);
      }
      r := GetDetailsByIdInternal(id, stale + StoreKeys(storeIds));
      EvictThenSet(old(cache.entries), BookDetails(id), BookDetailsValue(r.value));
    }

    /**
     * `UpdateAsync`: a missing book fails with nothing changed. Otherwise
     * the title and description are overwritten, each present id list
     * replaces that kind of link, the save runs in a transaction, the
     * details entry is evicted and the fresh details returned. The views of
     * the stores stocking the book before or after are not evicted.
     */
    method Update(id: Id, request: UpdateBookRequest, now: Timestamp, ghost stale: set<CacheKey>) returns (r: Result<BookDetailsDto>)
      requires Valid()
      modifies db`tables, cache
      ensures Valid()
      ensures id !in old(db.tables).books ==>
        r == Fail(BookNotFound) && db.tables == old(db.tables) && cache.entries == old(cache.entries)
      ensures id in old(db.tables).books ==>
        db.tables == WithUpdatedBook(old(db.tables), id, request.title, request.description,
                       Replacing(request.authorIds, old(db.tables).authors.Keys),
                       Replacing(request.storeIds, old(db.tables).stores.Keys))
                     .(books := old(db.tables).books[id := Touched(old(db.tables).books[id], request.title, request.description, now)])
        && r.Ok? && r.value == BookDetailsOf(CatalogOf(db.tables), BookDto(id, old(db.tables).books[id].isbn, request.title, request.description))
        && cache.entries == old(cache.entries)[BookDetails(id) := BookDetailsValue(r.value)]
      ensures CoherentExcept(old(cache.entries), CatalogOf(old(db.tables)), stale) ==>
        CoherentExcept(cache.entries, CatalogOf(db.tables),
          stale + StoreKeys(StockingStores(CatalogOf(old(db.tables)), id) + Present(Replacing(request.storeIds, old(db.tables).stores.Keys))))
    {
      var graph := BookRepository.GetDetails(db.tables, id);
      if graph.None? {
        return Fail(BookNotFound);
      }
      ghost var before := db.tables;
      ghost var authorIds := Replacing(request.authorIds, before.authors.Keys);
      ghost var storeIds := Replacing(request.storeIds, before.stores.Keys);
      ghost var target := WithUpdatedBook(before, id, request.title, request.description, authorIds, storeIds);
      SaveEdit(id, graph.value.book, request, now);
      cache.Remove(BookDetails(id));
      CatalogOfStamped(before, target, now);
      ghost var staleAfter := stale + StoreKeys(StockingStores(CatalogOf(before), id) + Present(storeIds));
      if CoherentExcept(old(cache.entries), CatalogOf(before), stale) {
        UpdateCoherence(old(cache.entries), before, id, request.title, request.description, authorIds, storeIds, db.tables, stale);
      }
      r := GetDetailsByIdInternal(id, staleAfter);
      EvictThenSet(old(cache.entries), BookDetails(id), BookDetailsValue(r.value));
    }

    /**
     * The edit and the save inside `UpdateAsync`: the loaded book gets the
     * new title and description, each present id list replaces that kind
     * of link, and the result is saved in a transaction.
     */
    method SaveEdit(id: Id, book: Book, request: UpdateBookRequest, now: Timestamp)
      requires Valid() && id in db.tables.books && book == db.tables.books[id]
      modifies db`tables
      ensures Valid()
      ensures var target := WithUpdatedBook(old(db.tables), id, request.title, request.description,
                              Replacing(request.authorIds, old(db.tables).authors.Keys),
                              Replacing(request.storeIds, old(db.tables).stores.Keys));
        db.tables == StampTables(old(db.tables), target, now)
        && db.tables == target.(books := old(db.tables).books[id := Touched(old(db.tables).books[id], request.title, request.description, now)])
    {
      ghost var before := db.tables;
      ghost var authorIds := Replacing(request.authorIds, before.authors.Keys);
      ghost var storeIds := Replacing(request.storeIds, before.stores.Keys);
      var edited := book.(title := request.title, description := request.description);
      ghost var target := WithUpdatedBook(before, id, request.title, request.description, authorIds, storeIds);
      var bookAuthors, storeBooks := ReplaceLinks(id, request);
      var tx := unitOfWork.BeginTransaction();
      var pending := db.tables.(books := db.tables.books[id := edited], bookAuthors := bookAuthors, storeBooks := storeBooks);
      assert pending == target;
      assert pending.books.Keys == before.books.Keys;
      UpdateConstraints(before, id, request.title, request.description, authorIds, storeIds);
      var error := unitOfWork.SaveChanges(pending, now);
      assert error.None?;
      var thrown := unitOfWork.CompleteTransaction(tx, error, None);
      StampUpdatedBook(before, id, request.title, request.description, authorIds, storeIds, now);
    }

    /**
     * The link rows `UpdateAsync` leaves: a present author id list replaces
     * the book's author links by the rows of the authors found, a present
     * store id list replaces its stock rows by zero-quantity rows of the
     * stores found, and an absent list keeps that kind of link.
     */
    method ReplaceLinks(id: Id, request: UpdateBookRequest) returns (bookAuthors: set<BookAuthor>, storeBooks: map<StoreBookKey, int>)
      requires Valid() && id in db.tables.books
      ensures var target := WithUpdatedBook(db.tables, id, request.title, request.description,
                              Replacing(request.authorIds, db.tables.authors.Keys),
                              Replacing(request.storeIds, db.tables.stores.Keys));
        bookAuthors == target.bookAuthors && storeBooks == target.storeBooks
    {
      ghost var authorIds := Replacing(request.authorIds, db.tables.authors.Keys);
      ghost var storeIds := Replacing(request.storeIds, db.tables.stores.Keys);
      bookAuthors := db.tables.bookAuthors;
      if request.authorIds.Some? {
        var links := AttachAuthors(id, request.authorIds);
        LinkSet(id, links, authorIds.value);
        bookAuthors := (set l | l in bookAuthors && l.bookId != id) + (set l | l in links);
      }
      storeBooks := db.tables.storeBooks;
      if request.storeIds.Some? {
        var stock := AttachStores(id, request.storeIds);
        StockSet(id, stock, storeIds.value);
        storeBooks := (map k | k in storeBooks && k.bookId != id :: storeBooks[k]) + ZeroStock(set k | k in stock);
      }
    }

    /**
     * `DeleteAsync`: a missing book fails with nothing changed. Otherwise
     * the book and, by the cascade, its links and stock rows are deleted in
     * a transaction and its details entry is evicted. The views of the
     * stores that stocked it are not evicted.
     */
    method Delete(id: Id, now: Timestamp, ghost stale: set<CacheKey>) returns (r: Result<bool>)
      requires Valid()
      modifies db`tables, cache
      ensures Valid()
      ensures id !in old(db.tables).books ==>
        r == Fail(BookNotFound) && db.tables == old(db.tables) && cache.entries == old(cache.entries)
      ensures id in old(db.tables).books ==>
        r == Ok(true) && db.tables == WithoutBookRows(old(db.tables), id)
        && cache.entries == old(cache.entries) - {BookDetails(id)}
      ensures CoherentExcept(old(cache.entries), CatalogOf(old(db.tables)), stale) ==>
        CoherentExcept(cache.entries, CatalogOf(db.tables), stale + StoreKeys(StockingStores(CatalogOf(old(db.tables)), id)))
    {
      if id !in db.tables.books {
        return Fail(BookNotFound);
      }
      ghost var before := db.tables;
      var tx := unitOfWork.BeginTransaction();
      var pending := WithoutBookRows(db.tables, id);
      DeleteConstraints(db.tables, id);
      var error := unitOfWork.SaveChanges(pending, now);
      var thrown := unitOfWork.CompleteTransaction(tx, error, None);
      cache.Remove(BookDetails(id));
      StampDeletedBook(before, id, now);
      if CoherentExcept(old(cache.entries), CatalogOf(before), stale) {
        DeleteCoherence(old(cache.entries), before, id, db.tables, stale);
      }
      r := Ok(true);
    }

    /**
     * `GetByIdAsync`: the details read, passed on as an optional value; a
     * missing book is a failure, not an empty success.
     */
    method GetById(id: Id, ghost stale: set<CacheKey>) returns (r: Result<Option<BookDetailsDto>>)
      requires Valid()
      modifies cache
      ensures Valid()
      ensures r.Ok? ==> r.value.Some?
      ensures BookDetails(id) in old(cache.entries) && old(cache.entries)[BookDetails(id)].BookDetailsValue? ==>
        r == Ok(Some(old(cache.entries)[BookDetails(id)].details)) && cache.entries == old(cache.entries)
      ensures !(BookDetails(id) in old(cache.entries) && old(cache.entries)[BookDetails(id)].BookDetailsValue?) ==>
        (r.Fail? <==> id !in db.tables.books)
        && (r.Fail? ==> r.error == BookNotFound && cache.entries == old(cache.entries))
        && (r.Ok? ==> r.value.value == BookDetailsOf(CatalogOf(db.tables), BookToDto(Keyed(id, db.tables.books[id])))
                      && cache.entries == old(cache.entries)[BookDetails(id) := BookDetailsValue(r.value.value)])
      ensures r.Ok? && ReadIsRight(old(cache.entries), CatalogOf(db.tables), stale, BookDetails(id)) ==>
        Fresh(CatalogOf(db.tables), BookDetails(id), BookDetailsValue(r.value.value))
      ensures CoherentExcept(old(cache.entries), CatalogOf(db.tables), stale) ==>
        CoherentExcept(cache.entries, CatalogOf(db.tables), stale)
    {
      var details := GetDetailsByIdInternal(id, stale);
      if details.Fail? {
        return Fail(details.error);
      }
      r := Ok(Some(details.value));
    }

    /**
     * `GetBooksAsync`: the paged listing with each book mapped to its DTO.
     * `scan` is the order in which the query met the books. The total counts
     * every book meeting the criteria; every item is such a book, each once,
     * and a page of a non-negative size is in the requested order.
     */
    method GetBooks(filter: BookFilterRequest, like: (string, string) -> bool)
      returns (r: Result<PagedResult<BookDto>>, ghost scan: seq<BookRepository.BookRow>)
      requires Valid()
      ensures BookRepository.IsBookScan(db.tables, scan)
      ensures r == Ok(ToDtoPage(BookRepository.GetPaged(scan, filter, like)))
      ensures r.value.page == filter.page && r.value.pageSize == filter.pageSize
      ensures r.value.total == |BookRepository.MatchingRows(db.tables, filter.title, filter.authorName, like)|
      ensures filter.pageSize >= 0 ==> |r.value.items| <= filter.pageSize
      ensures MatchingPage(db.tables, r.value.items, filter, like)
    {
      var rows := BookRepository.ScanWithAuthors(db.tables);
      scan := rows;
      var paged := BookRepository.GetPaged(rows, filter, like);
      r := Ok(ToDtoPage(paged));
      BookRepository.GetPagedTotalCounts(db.tables, rows, filter, like);
      GetBooksItems(db.tables, rows, filter, like);
    }

    /**
     * `AssignAuthorToBookAsync`: a missing book or author fails with nothing
     * changed. Otherwise the link is added unless it exists (assigning twice
     * is assigning once), the details entry is evicted and the fresh
     * details returned; every other cached view stays as right as it was.
     */
    method AssignAuthorToBook(request: AssignAuthorToBookRequest, now: Timestamp, ghost stale: set<CacheKey>) returns (r: Result<BookDetailsDto>)
      requires Valid()
      modifies db`tables, cache
      ensures Valid()
      ensures request.bookId !in old(db.tables).books ==>
        r == Fail(BookNotFound) && db.tables == old(db.tables) && cache.entries == old(cache.entries)
      ensures request.bookId in old(db.tables).books && request.authorId !in old(db.tables).authors ==>
        r == Fail(AuthorNotFound) && db.tables == old(db.tables) && cache.entries == old(cache.entries)
      ensures request.bookId in old(db.tables).books && request.authorId in old(db.tables).authors ==>
        db.tables == old(db.tables).(bookAuthors := old(db.tables).bookAuthors + {BookAuthor(request.bookId, request.authorId)})
        && r.Ok? && r.value == BookDetailsOf(CatalogOf(db.tables), BookToDto(Keyed(request.bookId, db.tables.books[request.bookId])))
        && request.authorId in AuthorIds(r.value)
        && cache.entries == old(cache.entries)[BookDetails(request.bookId) := BookDetailsValue(r.value)]
      ensures CoherentExcept(old(cache.entries), CatalogOf(old(db.tables)), stale) ==>
        CoherentExcept(cache.entries, CatalogOf(db.tables), stale)
    {
      var book := BookRepository.GetWithAuthors(db.tables, request.bookId);
      if book.None? {
        return Fail(BookNotFound);
      }
      if request.authorId !in db.tables.authors {
        return Fail(AuthorNotFound);
      }
      ghost var before := db.tables;
      var link := BookAuthor(request.bookId, request.authorId);
      var pending := db.tables;
      if request.authorId !in book.value.authors {
        pending := db.tables.(bookAuthors := db.tables.bookAuthors + {link});
      }
      assert pending == WithLink(before, link, true);
      LinkConstraints(before, link, true);
      var error := unitOfWork.SaveChanges(pending, now);
      cache.Remove(BookDetails(request.bookId));
      StampUnchangedEntities(before, pending, now);
      if CoherentExcept(old(cache.entries), CatalogOf(before), stale) {
        LinkCoherence(old(cache.entries), before, link, true, db.tables, stale);
      }
      r := GetDetailsByIdInternal(request.bookId, stale);
      EvictThenSet(old(cache.entries), BookDetails(request.bookId), BookDetailsValue(r.value));
      assert AuthorToDto(Keyed(request.authorId, db.tables.authors[request.authorId])) in r.value.authors;
    }

    /**
     * `RemoveAuthorFromBookAsync`: a missing book, or an author the book is
     * not linked to, fails with nothing changed. Otherwise the link is
     * removed, the details entry is evicted and the fresh details returned;
     * every other cached view stays as right as it was.
     */
    method RemoveAuthorFromBook(bookId: Id, authorId: Id, now: Timestamp, ghost stale: set<CacheKey>) returns (r: Result<BookDetailsDto>)
      requires Valid()
      modifies db`tables, cache
      ensures Valid()
      ensures bookId !in old(db.tables).books ==>
        r == Fail(BookNotFound) && db.tables == old(db.tables) && cache.entries == old(cache.entries)
      ensures bookId in old(db.tables).books && BookAuthor(bookId, authorId) !in old(db.tables).bookAuthors ==>
        r == Fail(AuthorNotAssigned) && db.tables == old(db.tables) && cache.entries == old(cache.entries)
      ensures bookId in old(db.tables).books && BookAuthor(bookId, authorId) in old(db.tables).bookAuthors ==>
        db.tables == old(db.tables).(bookAuthors := old(db.tables).bookAuthors - {BookAuthor(bookId, authorId)})
        && r.Ok? && r.value == BookDetailsOf(CatalogOf(db.tables), BookToDto(Keyed(bookId, db.tables.books[bookId])))
        && authorId !in AuthorIds(r.value)
        && cache.entries == old(cache.entries)[BookDetails(bookId) := BookDetailsValue(r.value)]
      ensures CoherentExcept(old(cache.entries), CatalogOf(old(db.tables)), stale) ==>
        CoherentExcept(cache.entries, CatalogOf(db.tables), stale)
    {
      var book := BookRepository.GetWithAuthors(db.tables, bookId);
      if book.None? {
        return Fail(BookNotFound);
      }
      var link := BookAuthor(bookId, authorId);
      if authorId !in book.value.authors {
        return Fail(AuthorNotAssigned);
      }
      ghost var before := db.tables;
      var pending := db.tables.(bookAuthors := db.tables.bookAuthors - {link});
      assert pending == WithLink(before, link, false);
      LinkConstraints(before, link, false);
      var error := unitOfWork.SaveChanges(pending, now);
      cache.Remove(BookDetails(bookId));
      StampUnchangedEntities(before, pending, now);
      if CoherentExcept(old(cache.entries), CatalogOf(before), stale) {
        LinkCoherence(old(cache.entries), before, link, false, db.tables, stale);
      }
      r := GetDetailsByIdInternal(bookId, stale);
      EvictThenSet(old(cache.entries), BookDetails(bookId), BookDetailsValue(r.value));
    }

    /**
     * `GetDetailsByIdInternalAsync`: a read through the cache. A cached
     * details object is returned as it is; on a miss a missing book fails
     * and caches nothing, and otherwise the details are built from the
     * database, cached and returned.
     */
    method GetDetailsByIdInternal(id: Id, ghost stale: set<CacheKey>) returns (r: Result<BookDetailsDto>)
      requires Valid()
      modifies cache
      ensures Valid()
      ensures BookDetails(id) in old(cache.entries) && old(cache.entries)[BookDetails(id)].BookDetailsValue? ==>
        r == Ok(old(cache.entries)[BookDetails(id)].details) && cache.entries == old(cache.entries)
      ensures !(BookDetails(id) in old(cache.entries) && old(cache.entries)[BookDetails(id)].BookDetailsValue?) ==>
        (r.Fail? <==> id !in db.tables.books)
        && (r.Fail? ==> r.error == BookNotFound && cache.entries == old(cache.entries))
        && (r.Ok? ==> r.value == BookDetailsOf(CatalogOf(db.tables), BookToDto(Keyed(id, db.tables.books[id])))
                      && cache.entries == old(cache.entries)[BookDetails(id) := BookDetailsValue(r.value)])
      ensures r.Ok? && ReadIsRight(old(cache.entries), CatalogOf(db.tables), stale, BookDetails(id)) ==>
        Fresh(CatalogOf(db.tables), BookDetails(id), BookDetailsValue(r.value))
      ensures CoherentExcept(old(cache.entries), CatalogOf(db.tables), stale) ==>
        CoherentExcept(cache.entries, CatalogOf(db.tables), stale)
    {
      var hit := AsBookDetails(cache.Get(BookDetails(id)));
      if hit.Some? {
        return Ok(hit.value);
      }
      var book := BookRepository.GetDetails(db.tables, id);
      if book.None? {
        return Fail(BookNotFound);
      }
      var details := DetailsOf(book.value);
      LoadedBookIsView(db.tables, id);
      cache.Set(BookDetails(id), BookDetailsValue(details));
      r := Ok(details);
    }
  }

  /** The keys of the authors a details object lists. */
  function AuthorIds(d: BookDetailsDto): (r: set<Id>)
    ensures forall a :: a in r <==> exists x | x in d.authors :: x.id == a
  {
    set x | x in d.authors :: x.id
  }

  /**
   * What a listed page holds: distinct books, each a stored book meeting
   * the criteria, each next to the one before it in the requested order.
   */
  ghost predicate MatchingPage(t: Tables, items: seq<BookDto>, filter: BookFilterRequest, like: (string, string) -> bool)
  {
    NoDuplicates(items)
    && (forall d | d in items ::
          d.id in t.books && d in CatalogOf(t).books
          && BookRepository.RowOf(t, d.id) in BookRepository.MatchingRows(t, filter.title, filter.authorName, like))
    && (forall i | 0 < i < |items| ::
          BookRepository.Order(BookRepository.SortKeyOf(filter.sortBy), filter.desc)(
               BookRepository.RowOf(t, items[i - 1].id), BookRepository.RowOf(t, items[i].id)))
  }

  lemma GetBooksItems(t: Tables, rows: seq<BookRepository.BookRow>, filter: BookFilterRequest, like: (string, string) -> bool)
    requires BookRepository.IsBookScan(t, rows)
    ensures MatchingPage(t, ToDtoPage(BookRepository.GetPaged(rows, filter, like)).items, filter, like)
  {
    var page := BookRepository.GetPaged(rows, filter, like).items;
    var items := ToDtoPage(BookRepository.GetPaged(rows, filter, like)).items;
    forall i | 0 <= i < |page|
      ensures page[i] in rows && page[i] == BookRepository.RowOf(t, page[i].row.id)
      ensures items[i] in CatalogOf(t).books && items[i].id == page[i].row.id
      ensures BookRepository.RowOf(t, items[i].id) in BookRepository.MatchingRows(t, filter.title, filter.authorName, like)
    {
      assert page[i] in page;
    }
    forall i, j | 0 <= i < j < |items|
      ensures items[i] != items[j]
    {
      BookRepository.GetPagedDistinct(rows, filter, like);
      assert page[i].row.id != page[j].row.id;
    }
    BookRepository.GetPagedSorted(rows, filter, like);
  }
}
