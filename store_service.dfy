/**
 * The store service (src/BusinessLogic/BookStore.BusinessLogic/Services/StoreService.cs):
 * creation, the cached store list, store details and book lists, and
 * stocking or unstocking a book.
 */
module StoreService {
  import opened Results
  import opened Entities
  import opened Sequences
  import opened Persistence
  import opened Transactions
  import opened Caching
  import opened Views
  import StoreRepository

  const StoreNotFound: string := "Store not found."
  const BookNotAssigned: string := "Book is not assigned to this store."

  /** `Select(s => new StoreDto(...))` over a list of rows. */
  function ToDtos(rows: seq<Keyed<Store>>): (r: seq<StoreDto>)
    ensures |r| == |rows| && forall i :: 0 <= i < |rows| ==> r[i] == StoreToDto(rows[i])
  {
    seq(|rows|, i requires 0 <= i < |rows| => StoreToDto(rows[i]))
  }

  /** `StoreBooks.Select(sb => sb.Book).Distinct().Select(b => new BookDto(...))`. */
  function BookDtosOf(sw: StoreRepository.StoreWithBooks): set<BookDto>
  {
    set b | b in sw.books :: BookToDto(Keyed(b, sw.books[b]))
  }

  /** The details object built from a loaded store. */
  function DetailsOf(sw: StoreRepository.StoreWithBooks): StoreDetailsDto
  {
    StoreDetailsDto(sw.id, sw.store.name, sw.store.location, BookDtosOf(sw))
  }

  /**
   * The book list built from a loaded store is the store's view of the
   * catalog, and so is the details object.
   */
  lemma LoadedStoreIsView(t: Tables, id: Id)
    requires ForeignKeys(t) && id in t.stores
    ensures BookDtosOf(StoreRepository.GetWithBooks(t, id).value) == BooksIn(CatalogOf(t), id)
    ensures DetailsOf(StoreRepository.GetWithBooks(t, id).value) == StoreDetailsOf(CatalogOf(t), StoreToDto(Keyed(id, t.stores[id])))
    ensures StoreToDto(Keyed(id, t.stores[id])) in CatalogOf(t).stores
  {
    var sw := StoreRepository.GetWithBooks(t, id).value;
    var c := CatalogOf(t);
    forall d | d in BooksIn(c, id)
      ensures d in BookDtosOf(sw)
    {
      assert d.id in sw.books;
    }
  }

  lemma StoreListFresh(t: Tables, rows: seq<Keyed<Store>>)
    requires DistinctIds(rows)
    requires forall x :: x in rows <==> x.id in t.stores && t.stores[x.id] == x.entity
    ensures ListsStores(ToDtos(StoreRepository.GetAll(rows)), CatalogOf(t))
  {
    var sorted := StoreRepository.GetAll(rows);
    forall x
      ensures x in sorted <==> x in rows
    {
      assert x in sorted <==> x in multiset(sorted);
      assert x in rows <==> x in multiset(rows);
    }
    assert NoDuplicates(rows);
    PermutationNoDuplicates(rows, sorted);
    StoreListSorted(sorted);
    StoreListMembers(t, sorted);
    StoreListDistinct(t, sorted);
  }

  lemma StoreListSorted(sorted: seq<Keyed<Store>>)
    requires Sorted(sorted, StoreRepository.NameOrder)
    ensures Sorted(ToDtos(sorted), StoreOrder)
  {
    var list := ToDtos(sorted);
    forall i | 0 < i < |list|
      ensures StoreOrder(list[i - 1], list[i])
    {
      assert StoreRepository.NameOrder(sorted[i - 1], sorted[i]);
    }
  }

  lemma StoreListMembers(t: Tables, sorted: seq<Keyed<Store>>)
    requires forall x :: x in sorted <==> x.id in t.stores && t.stores[x.id] == x.entity
    ensures forall d :: d in ToDtos(sorted) <==> d in CatalogOf(t).stores
  {
    var list := ToDtos(sorted);
    forall d
      ensures d in list <==> d in CatalogOf(t).stores
    {
      if d in list {
        var i :| 0 <= i < |list| && list[i] == d;
        assert sorted[i] in sorted;
      }
      if d in CatalogOf(t).stores {
        var x := Keyed(d.id, t.stores[d.id]);
        assert x in sorted;
        var i :| 0 <= i < |sorted| && sorted[i] == x;
        assert list[i] == d;
      }
    }
  }

  lemma StoreListDistinct(t: Tables, sorted: seq<Keyed<Store>>)
    requires NoDuplicates(sorted)
    requires forall x :: x in sorted <==> x.id in t.stores && t.stores[x.id] == x.entity
    ensures NoDuplicates(ToDtos(sorted))
  {
    var list := ToDtos(sorted);
    forall i, j | 0 <= i < j < |list|
      ensures list[i] != list[j]
    {
      var a, b := sorted[i], sorted[j];
      assert a in sorted && b in sorted && a != b;
      assert a.id == b.id ==> a == b;
    }
  }

  /** Saving one new store stamps its creation time and leaves every other row as it was. */
  lemma StampNewStore(t: Tables, id: Id, s: Store, now: Timestamp)
    requires id !in t.stores
    ensures StampTables(t, t.(stores := t.stores[id := s]), now)
      == t.(stores := t.stores[id := s.(times := s.times.(createdAtUtc := now))])
  {
    var pending := t.(stores := t.stores[id := s]);
    var r := StampTables(t, pending, now);
    forall x | x in pending.stores
      ensures r.stores[x] == t.stores[id := s.(times := s.times.(createdAtUtc := now))][x]
    {
      StampTablesStores(t, pending, now, x);
    }
    forall x | x in pending.books
      ensures r.books[x] == t.books[x]
    {
      StampTablesBooks(t, pending, now, x);
    }
    forall x | x in pending.authors
      ensures r.authors[x] == t.authors[x]
    {
      StampTablesAuthors(t, pending, now, x);
    }
  }

  /** Inserting a new store keeps every view but the store list as right as it was. */
  lemma NewStoreCoherence(entries: map<CacheKey, CacheValue>, t: Tables, id: Id, s: Store, t2: Tables, stale: set<CacheKey>)
    requires ForeignKeys(t) && id !in t.stores
    requires CatalogOf(t2) == CatalogOf(t.(stores := t.stores[id := s]))
    requires CoherentExcept(entries, CatalogOf(t), stale)
    ensures CoherentExcept(entries - {StoresAll, StoreDetails(id), StoreBooks(id)}, CatalogOf(t2), stale)
  {
    var c := CatalogOf(t);
    var d := StoreToDto(Keyed(id, s));
    assert CatalogOf(t2).stores == c.stores + {d};
    assert CatalogOf(t2) == c.(stores := c.stores + {d});
    StoreAddedFrame(c, d);
    CoherenceCarries(entries, c, CatalogOf(t2), stale, {StoresAll});
  }

  /** Writing a stock row changes the catalog by stocking the book, whatever the quantity. */
  lemma CatalogWithStock(t: Tables, key: StoreBookKey, quantity: int)
    ensures CatalogOf(t.(storeBooks := t.storeBooks[key := quantity])) == Stocking(CatalogOf(t), key.storeId, key.bookId, true)
  {
    var t2 := t.(storeBooks := t.storeBooks[key := quantity]);
    assert CatalogOf(t2).stocked == CatalogOf(t).stocked + {key};
  }

  lemma CatalogWithoutStock(t: Tables, key: StoreBookKey)
    ensures CatalogOf(t.(storeBooks := t.storeBooks - {key})) == Stocking(CatalogOf(t), key.storeId, key.bookId, false)
  {
    var t2 := t.(storeBooks := t.storeBooks - {key});
    assert CatalogOf(t2).stocked == CatalogOf(t).stocked - {key};
  }

  /**
   * Writing a stock row for an existing store keeps the constraints exactly
   * when the book exists (the foreign key to `Books`).
   */
  lemma StockConstraints(t: Tables, key: StoreBookKey, quantity: int)
    requires Constraints(t) && key.storeId in t.stores
    ensures Constraints(t.(storeBooks := t.storeBooks[key := quantity])) <==> key.bookId in t.books
  {
  }

  /** Removing a stock row keeps the constraints. */
  lemma UnstockConstraints(t: Tables, key: StoreBookKey)
    requires Constraints(t)
    ensures Constraints(t.(storeBooks := t.storeBooks - {key}))
  {
  }

  /**
   * After a stock row is written or removed and the store's two entries
   * are evicted, the cache is right outside `stale`, plus the book's
   * details when the row was added or removed rather than updated.
   */
  lemma StockCoherence(entries: map<CacheKey, CacheValue>, c: Catalog, key: StoreBookKey, present: bool, stale: set<CacheKey>)
    requires CoherentExcept(entries, c, stale)
    ensures CoherentExcept(entries - {StoreDetails(key.storeId), StoreBooks(key.storeId)}, Stocking(c, key.storeId, key.bookId, present),
      stale + (if (key in c.stocked) == present then {} else {BookDetails(key.bookId)}))
  {
    var c2 := Stocking(c, key.storeId, key.bookId, present);
    StockingFrame(c, key.storeId, key.bookId, present);
    CoherenceCarries(entries, c, c2, stale, {BookDetails(key.bookId), StoreDetails(key.storeId), StoreBooks(key.storeId)});
    if (key in c.stocked) == present {
      assert c2 == c;
    }
  }

  /** Saving a written stock row, then evicting the store's two entries. */
  lemma StockWrittenCoherence(entries: map<CacheKey, CacheValue>, t: Tables, key: StoreBookKey, quantity: int, now: Timestamp, stale: set<CacheKey>)
    requires CoherentExcept(entries, CatalogOf(t), stale)
    ensures CoherentExcept(entries - {StoreDetails(key.storeId), StoreBooks(key.storeId)},
      CatalogOf(StampTables(t, t.(storeBooks := t.storeBooks[key := quantity]), now)),
      stale + (if key in t.storeBooks then {} else {BookDetails(key.bookId)}))
  {
    var pending := t.(storeBooks := t.storeBooks[key := quantity]);
    StampUnchangedEntities(t, pending, now);
    CatalogWithStock(t, key, quantity);
    StockCoherence(entries, CatalogOf(t), key, true, stale);
  }

  /** Saving a removed stock row, then evicting the store's two entries. */
  lemma StockRemovedCoherence(entries: map<CacheKey, CacheValue>, t: Tables, key: StoreBookKey, now: Timestamp, stale: set<CacheKey>)
    requires CoherentExcept(entries, CatalogOf(t), stale)
    ensures CoherentExcept(entries - {StoreDetails(key.storeId), StoreBooks(key.storeId)},
      CatalogOf(StampTables(t, t.(storeBooks := t.storeBooks - {key}), now)),
      stale + (if key in t.storeBooks then {BookDetails(key.bookId)} else {}))
  {
    var pending := t.(storeBooks := t.storeBooks - {key});
    StampUnchangedEntities(t, pending, now);
    CatalogWithoutStock(t, key);
    StockCoherence(entries, CatalogOf(t), key, false, stale);
  }

  /** A store has no unique index and nothing refers to a new one, so adding it keeps every constraint. */
  lemma NewStoreConstraints(t: Tables, id: Id, s: Store)
    requires Constraints(t)
    ensures Constraints(t.(stores := t.stores[id := s]))
  {
  }

  /** Evicting three keys one after the other evicts all three. */
  lemma RemoveThree(m: map<CacheKey, CacheValue>, a: CacheKey, b: CacheKey, c: CacheKey)
    ensures m - {a} - {b} - {c} == m - {a, b, c}
  {
  }

  /** Evicting two keys one after the other evicts both. */
  lemma RemoveTwo(m: map<CacheKey, CacheValue>, a: CacheKey, b: CacheKey)
    ensures m - {a} - {b} == m - {a, b}
  {
  }

  class StoreService {
    const db: BookStoreDbContext
    const unitOfWork: UnitOfWork
    const cache: MemoryCache

    ghost predicate Valid()
      reads db
    {
      unitOfWork.context == db && db.Valid()
    }

    constructor(db: BookStoreDbContext, unitOfWork: UnitOfWork, cache: MemoryCache)
      requires unitOfWork.context == db
      ensures this.db == db && this.unitOfWork == unitOfWork && this.cache == cache
    {
      this.db := db;
      this.unitOfWork := unitOfWork;
      this.cache := cache;
    }

    /**
     * `CreateAsync`: inserts the store in a transaction, stamped with its
     * creation time, and evicts the store list and the new store's two
     * entries. Every other cached view stays as right as it was.
     */
    method Create(request: CreateStoreRequest, now: Timestamp, ghost stale: set<CacheKey>) returns (r: Result<StoreDto>)
      requires Valid()
      modifies db`tables, db`nextId, cache
      ensures Valid()
      ensures r.Ok? && r.value.id !in old(db.tables).stores
      ensures r.value == StoreDto(r.value.id, request.name, request.location)
      ensures db.tables == old(db.tables).(stores := old(db.tables).stores[r.value.id := Store(request.name, request.location, Times(now, None))])
      ensures cache.entries == old(cache.entries) - {StoresAll, StoreDetails(r.value.id), StoreBooks(r.value.id)}
      ensures CoherentExcept(old(cache.entries), CatalogOf(old(db.tables)), stale) ==>
        CoherentExcept(cache.entries, CatalogOf(db.tables), stale)
    {
      ghost var before := db.tables;
      var id := db.NewId();
      var store := Store(request.name, request.location, Unstamped);
      var tx := unitOfWork.BeginTransaction();
      var pending := db.tables.(stores := db.tables.stores[id := store]);
      NewStoreConstraints(before, id, store);
      var error := unitOfWork.SaveChanges(pending, now);
      assert error.None?;
      var thrown := unitOfWork.CompleteTransaction(tx, error, None);
      StampNewStore(before, id, store, now);
      assert db.tables == StampTables(before, pending, now);
      ghost var entries := cache.entries;
      cache.Remove(StoresAll);
      cache.Remove(StoreDetails(id));
      cache.Remove(StoreBooks(id));
      RemoveThree(entries, StoresAll, StoreDetails(id), StoreBooks(id));
      r := Ok(StoreDto(id, store.name, store.location));
      CatalogOfStamped(before, pending, now);
      if CoherentExcept(old(cache.entries), CatalogOf(before), stale) {
        NewStoreCoherence(old(cache.entries), before, id, store, db.tables, stale);
      }
    }

    /**
     * `GetAllAsync`: a read through the cache. A cached store list is
     * returned as it is; otherwise the sorted list is built and cached.
     * What it returns is the right store list whenever the entry was
     * missing or fresh.
     */
    method GetAll(ghost stale: set<CacheKey>) returns (r: Result<seq<StoreDto>>)
      requires Valid()
      modifies cache
      ensures Valid() && r.Ok?
      ensures StoresAll in old(cache.entries) && old(cache.entries)[StoresAll].StoreListValue? ==>
        r.value == old(cache.entries)[StoresAll].stores && cache.entries == old(cache.entries)
      ensures !(StoresAll in old(cache.entries) && old(cache.entries)[StoresAll].StoreListValue?) ==>
        ListsStores(r.value, CatalogOf(db.tables)) && cache.entries == old(cache.entries)[StoresAll := StoreListValue(r.value)]
      ensures ReadIsRight(old(cache.entries), CatalogOf(db.tables), stale, StoresAll) ==> ListsStores(r.value, CatalogOf(db.tables))
      ensures CoherentExcept(old(cache.entries), CatalogOf(db.tables), stale) ==>
        CoherentExcept(cache.entries, CatalogOf(db.tables), stale)
    {
      var hit := AsStoreList(cache.Get(StoresAll));
      if hit.Some? {
        return Ok(hit.value);
      }
      var rows := Scan(db.tables.stores);
      var list := ToDtos(StoreRepository.GetAll(rows));
      StoreListFresh(db.tables, rows);
      cache.Set(StoresAll, StoreListValue(list));
      r := Ok(list);
    }

    /**
     * `GetByIdAsync`: a read through the cache. On a miss a missing store
     * gives an empty success and caches nothing; otherwise the details are
     * built, cached and returned.
     */
    method GetById(id: Id, ghost stale: set<CacheKey>) returns (r: Result<Option<StoreDetailsDto>>)
      requires Valid()
      modifies cache
      ensures Valid() && r.Ok?
      ensures StoreDetails(id) in old(cache.entries) && old(cache.entries)[StoreDetails(id)].StoreDetailsValue? ==>
        r.value == Some(old(cache.entries)[StoreDetails(id)].storeDetails) && cache.entries == old(cache.entries)
      ensures !(StoreDetails(id) in old(cache.entries) && old(cache.entries)[StoreDetails(id)].StoreDetailsValue?) ==>
        (r.value.None? <==> id !in db.tables.stores)
        && (r.value.None? ==> cache.entries == old(cache.entries))
        && (r.value.Some? ==> r.value.value == StoreDetailsOf(CatalogOf(db.tables), StoreToDto(Keyed(id, db.tables.stores[id])))
                              && cache.entries == old(cache.entries)[StoreDetails(id) := StoreDetailsValue(r.value.value)])
      ensures r.value.Some? && ReadIsRight(old(cache.entries), CatalogOf(db.tables), stale, StoreDetails(id)) ==> Fresh(CatalogOf(db.tables), StoreDetails(id), StoreDetailsValue(r.value.value))
      ensures CoherentExcept(old(cache.entries), CatalogOf(db.tables), stale) ==>
        CoherentExcept(cache.entries, CatalogOf(db.tables), stale)
    {
      var hit := AsStoreDetails(cache.Get(StoreDetails(id)));
      if hit.Some? {
        return Ok(Some(hit.value));
      }
      var store := StoreRepository.GetWithBooks(db.tables, id);
      if store.None? {
        return Ok(None);
      }
      var details := DetailsOf(store.value);
      LoadedStoreIsView(db.tables, id);
      cache.Set(StoreDetails(id), StoreDetailsValue(details));
      r := Ok(Some(details));
    }

    /**
     * `GetBooksForStoreAsync`: a read through the cache. On a miss a
     * missing store fails and caches nothing; otherwise the store's books
     * are cached and returned.
     */
    method GetBooksForStore(storeId: Id, ghost stale: set<CacheKey>) returns (r: Result<set<BookDto>>)
      requires Valid()
      modifies cache
      ensures Valid()
      ensures StoreBooks(storeId) in old(cache.entries) && old(cache.entries)[StoreBooks(storeId)].BookListValue? ==>
        r == Ok(old(cache.entries)[StoreBooks(storeId)].books) && cache.entries == old(cache.entries)
      ensures !(StoreBooks(storeId) in old(cache.entries) && old(cache.entries)[StoreBooks(storeId)].BookListValue?) ==>
        (r.Fail? <==> storeId !in db.tables.stores)
        && (r.Fail? ==> r.error == StoreNotFound && cache.entries == old(cache.entries))
        && (r.Ok? ==> r.value == BooksIn(CatalogOf(db.tables), storeId)
                      && cache.entries == old(cache.entries)[StoreBooks(storeId) := BookListValue(r.value)])
      ensures r.Ok? && ReadIsRight(old(cache.entries), CatalogOf(db.tables), stale, StoreBooks(storeId)) ==> r.value == BooksIn(CatalogOf(db.tables), storeId)
      ensures CoherentExcept(old(cache.entries), CatalogOf(db.tables), stale) ==>
        CoherentExcept(cache.entries, CatalogOf(db.tables), stale)
    {
      var hit := AsBookList(cache.Get(StoreBooks(storeId)));
      if hit.Some? {
        return Ok(hit.value);
      }
      var store := StoreRepository.GetWithBooks(db.tables, storeId);
      if store.None? {
        return Fail(StoreNotFound);
      }
      var books := BookDtosOf(store.value);
      LoadedStoreIsView(db.tables, storeId);
      cache.Set(StoreBooks(storeId), BookListValue(books));
      r := Ok(books);
    }

    /**
     * `AssignBookToStoreAsync`: sets the quantity of the book in the store,
     * adding the stock row if there is none. A missing store fails with
     * nothing changed; a missing book makes the save throw the foreign-key
     * `DbUpdateException` with nothing changed. Otherwise the store's two
     * entries are evicted and its fresh details returned; the book's own
     * details entry is not evicted and goes stale when the row is new.
     */
    method AssignBookToStore(request: AssignBookToStoreRequest, now: Timestamp, ghost stale: set<CacheKey>)
      returns (r: Outcome<StoreDetailsDto>)
      requires Valid()
      modifies db`tables, cache
      ensures Valid()
      ensures request.storeId !in old(db.tables).stores ==>
        r == Returned(Fail(StoreNotFound)) && db.tables == old(db.tables) && cache.entries == old(cache.entries)
      ensures request.storeId in old(db.tables).stores && request.bookId !in old(db.tables).books ==>
        r == Threw(DbUpdate(DbUpdateMessage)) && db.tables == old(db.tables) && cache.entries == old(cache.entries)
      ensures request.storeId in old(db.tables).stores && request.bookId in old(db.tables).books ==>
        db.tables == old(db.tables).(storeBooks := old(db.tables).storeBooks[StoreBookKey(request.storeId, request.bookId) := request.quantity])
        && cache.entries == old(cache.entries) - {StoreDetails(request.storeId), StoreBooks(request.storeId)}
        && r.Returned? && r.result.Ok?
        && r.result.value == StoreDetailsOf(CatalogOf(db.tables), StoreToDto(Keyed(request.storeId, db.tables.stores[request.storeId])))
      ensures CoherentExcept(old(cache.entries), CatalogOf(old(db.tables)), stale) ==>
        CoherentExcept(cache.entries, CatalogOf(db.tables),
          stale + (if StoreBookKey(request.storeId, request.bookId) in old(db.tables).storeBooks then {} else {BookDetails(request.bookId)}))
    {
      var store := StoreRepository.GetWithBooks(db.tables, request.storeId);
      if store.None? {
        return Returned(Fail(StoreNotFound));
      }
      ghost var before := db.tables;
      var key := StoreBookKey(request.storeId, request.bookId);
      var pending := db.tables.(storeBooks := db.tables.storeBooks[key := request.quantity]);
      StockConstraints(db.tables, key, request.quantity);
      var error := unitOfWork.SaveChanges(pending, now);
      if error.Some? {
        return Threw(error.value);
      }
      cache.Remove(StoreDetails(request.storeId));
      cache.Remove(StoreBooks(request.storeId));
      RemoveTwo(old(cache.entries), StoreDetails(request.storeId), StoreBooks(request.storeId));
      StampUnchangedEntities(before, pending, now);
      if CoherentExcept(old(cache.entries), CatalogOf(before), stale) {
        StockWrittenCoherence(old(cache.entries), before, key, request.quantity, now, stale);
      }
      var details := GetStoreDetailsInternal(request.storeId);
      r := Returned(details);
    }

    /**
     * `RemoveBookFromStoreAsync`: deletes the stock row. A missing store or
     * a book the store does not stock fails with nothing changed. Otherwise
     * the store's two entries are evicted and its fresh details returned;
     * the book's own details entry is not evicted and goes stale.
     */
    method RemoveBookFromStore(storeId: Id, bookId: Id, now: Timestamp, ghost stale: set<CacheKey>)
      returns (r: Result<StoreDetailsDto>)
      requires Valid()
      modifies db`tables, cache
      ensures Valid()
      ensures storeId !in old(db.tables).stores ==>
        r == Fail(StoreNotFound) && db.tables == old(db.tables) && cache.entries == old(cache.entries)
      ensures storeId in old(db.tables).stores && StoreBookKey(storeId, bookId) !in old(db.tables).storeBooks ==>
        r == Fail(BookNotAssigned) && db.tables == old(db.tables) && cache.entries == old(cache.entries)
      ensures storeId in old(db.tables).stores && StoreBookKey(storeId, bookId) in old(db.tables).storeBooks ==>
        db.tables == old(db.tables).(storeBooks := old(db.tables).storeBooks - {StoreBookKey(storeId, bookId)})
        && cache.entries == old(cache.entries) - {StoreDetails(storeId), StoreBooks(storeId)}
        && r.Ok? && r.value == StoreDetailsOf(CatalogOf(db.tables), StoreToDto(Keyed(storeId, db.tables.stores[storeId])))
      ensures CoherentExcept(old(cache.entries), CatalogOf(old(db.tables)), stale) ==>
        CoherentExcept(cache.entries, CatalogOf(db.tables),
          stale + (if StoreBookKey(storeId, bookId) in old(db.tables).storeBooks then {BookDetails(bookId)} else {}))
    {
      var store := StoreRepository.GetWithBooks(db.tables, storeId);
      if store.None? {
        return Fail(StoreNotFound);
      }
      var key := StoreBookKey(storeId, bookId);
      if bookId !in store.value.quantities {
        return Fail(BookNotAssigned);
      }
      ghost var before := db.tables;
      var pending := db.tables.(storeBooks := db.tables.storeBooks - {key});
      UnstockConstraints(db.tables, key);
      var error := unitOfWork.SaveChanges(pending, now);
      cache.Remove(StoreDetails(storeId));
      cache.Remove(StoreBooks(storeId));
      RemoveTwo(old(cache.entries), StoreDetails(storeId), StoreBooks(storeId));
      StampUnchangedEntities(before, pending, now);
      if CoherentExcept(old(cache.entries), CatalogOf(before), stale) {
        StockRemovedCoherence(old(cache.entries), before, key, now, stale);
      }
      r := GetStoreDetailsInternal(storeId);
    }

    /** `GetStoreDetailsInternalAsync`: the store's details from the database, bypassing the cache. */
    method GetStoreDetailsInternal(storeId: Id) returns (r: Result<StoreDetailsDto>)
      requires Valid()
      ensures r.Fail? <==> storeId !in db.tables.stores
      ensures r.Fail? ==> r.error == StoreNotFound
      ensures r.Ok? ==> Fresh(CatalogOf(db.tables), StoreDetails(storeId), StoreDetailsValue(r.value))
      ensures r.Ok? ==> r.value == StoreDetailsOf(CatalogOf(db.tables), StoreToDto(Keyed(storeId, db.tables.stores[storeId])))
    {
      var store := StoreRepository.GetWithBooks(db.tables, storeId);
      if store.None? {
        return Fail(StoreNotFound);
      }
      LoadedStoreIsView(db.tables, storeId);
      r := Ok(DetailsOf(store.value));
    }
  }
}
