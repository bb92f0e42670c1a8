/**
 * The author service (src/BusinessLogic/BookStore.BusinessLogic/Services/AuthorService.cs):
 * creation with the duplicate-name check, the cached author list, and
 * lookup by key.
 */
module AuthorService {
  import opened Results
  import opened Entities
  import opened Sequences
  import opened Persistence
  import opened Transactions
  import opened Caching
  import opened Views
  import AuthorRepository

  const DuplicateAuthor: string := "Author with the same first and last name already exists."

  /** `Select(a => new AuthorDto(...))` over a list of rows. */
  function ToDtos(rows: seq<Keyed<Author>>): (r: seq<AuthorDto>)
    ensures |r| == |rows| && forall i :: 0 <= i < |rows| ==> r[i] == AuthorToDto(rows[i])
  {
    seq(|rows|, i requires 0 <= i < |rows| => AuthorToDto(rows[i]))
  }

  /**
   * The list a cache miss builds from a scan of the author table is the
   * right author list: every author once, in name order.
   */
  lemma AuthorListFresh(t: Tables, rows: seq<Keyed<Author>>)
    requires DistinctIds(rows)
    requires forall x :: x in rows <==> x.id in t.authors && t.authors[x.id] == x.entity
    ensures ListsAuthors(ToDtos(AuthorRepository.GetAll(rows)), CatalogOf(t))
  {
    var sorted := AuthorRepository.GetAll(rows);
    forall x
      ensures x in sorted <==> x in rows
    {
      assert x in sorted <==> x in multiset(sorted);
      assert x in rows <==> x in multiset(rows);
    }
    assert NoDuplicates(rows);
    PermutationNoDuplicates(rows, sorted);
    AuthorListSorted(sorted);
    AuthorListMembers(t, sorted);
    AuthorListDistinct(t, sorted);
  }

  lemma AuthorListSorted(sorted: seq<Keyed<Author>>)
    requires Sorted(sorted, AuthorRepository.NameOrder)
    ensures Sorted(ToDtos(sorted), AuthorOrder)
  {
    var list := ToDtos(sorted);
    forall i | 0 < i < |list|
      ensures AuthorOrder(list[i - 1], list[i])
    {
      assert AuthorRepository.NameOrder(sorted[i - 1], sorted[i]);
    }
  }

  lemma AuthorListMembers(t: Tables, sorted: seq<Keyed<Author>>)
    requires forall x :: x in sorted <==> x.id in t.authors && t.authors[x.id] == x.entity
    ensures forall d :: d in ToDtos(sorted) <==> d in CatalogOf(t).authors
  {
    var list := ToDtos(sorted);
    forall d
      ensures d in list <==> d in CatalogOf(t).authors
    {
      if d in list {
        var i :| 0 <= i < |list| && list[i] == d;
        assert sorted[i] in sorted;
      }
      if d in CatalogOf(t).authors {
        var x := Keyed(d.id, t.authors[d.id]);
        assert x in sorted;
        var i :| 0 <= i < |sorted| && sorted[i] == x;
        assert list[i] == d;
      }
    }
  }

  lemma AuthorListDistinct(t: Tables, sorted: seq<Keyed<Author>>)
    requires NoDuplicates(sorted)
    requires forall x :: x in sorted <==> x.id in t.authors && t.authors[x.id] == x.entity
    ensures NoDuplicates(ToDtos(sorted))
  {
    var list := ToDtos(sorted);
    forall i, j | 0 <= i < j < |list|
      ensures list[i] != list[j]
    {
      var a, b := sorted[i], sorted[j];
      assert a in sorted && b in sorted && a != b;
      assert a.id == b.id ==> a == b;
    }
  }

  /** Adding an author with a fresh key adds its DTO to the catalog and changes nothing else. */
  lemma CatalogWithAuthor(t: Tables, id: Id, a: Author)
    requires id !in t.authors
    ensures CatalogOf(t.(authors := t.authors[id := a]))
      == CatalogOf(t).(authors := CatalogOf(t).authors + {AuthorToDto(Keyed(id, a))})
  {
    var t2 := t.(authors := t.authors[id := a]);
    assert CatalogOf(t2).authors == CatalogOf(t).authors + {AuthorToDto(Keyed(id, a))};
  }

  /** Saving one new author stamps its creation time and leaves every other row as it was. */
  lemma StampNewAuthor(t: Tables, id: Id, a: Author, now: Timestamp)
    requires id !in t.authors
    ensures StampTables(t, t.(authors := t.authors[id := a]), now)
      == t.(authors := t.authors[id := a.(times := a.times.(createdAtUtc := now))])
  {
    var pending := t.(authors := t.authors[id := a]);
    var r := StampTables(t, pending, now);
    forall x | x in pending.authors
      ensures r.authors[x] == t.authors[id := a.(times := a.times.(createdAtUtc := now))][x]
    {
      StampTablesAuthors(t, pending, now, x);
    }
    forall x | x in pending.books
      ensures r.books[x] == t.books[x]
    {
      StampTablesBooks(t, pending, now, x);
    }
    forall x | x in pending.stores
      ensures r.stores[x] == t.stores[x]
    {
      StampTablesStores(t, pending, now, x);
    }
  }

  /**
   * Inserting a new author and evicting the author list keeps every other
   * cached view as right as it was.
   */
  lemma NewAuthorCoherence(entries: map<CacheKey, CacheValue>, t: Tables, id: Id, a: Author, t2: Tables, stale: set<CacheKey>)
    requires ForeignKeys(t) && id !in t.authors
    requires CatalogOf(t2) == CatalogOf(t.(authors := t.authors[id := a]))
    requires CoherentExcept(entries, CatalogOf(t), stale)
    ensures CoherentExcept(entries - {AuthorsAll}, CatalogOf(t2), stale)
  {
    CatalogWithAuthor(t, id, a);
    AuthorAddedFrame(CatalogOf(t), AuthorToDto(Keyed(id, a)));
    CoherenceCarries(entries, CatalogOf(t), CatalogOf(t2), stale, {AuthorsAll});
  }

  class AuthorService {
    const db: BookStoreDbContext
    const unitOfWork: UnitOfWork
    const cache: MemoryCache

    ghost predicate Valid()
      reads db
    {
      unitOfWork.context == db && db.Valid()
    }

    constructor(db: BookStoreDbContext, unitOfWork: UnitOfWork, cache: MemoryCache)
      requires unitOfWork.context == db
      ensures this.db == db && this.unitOfWork == unitOfWork && this.cache == cache
    {
      this.db := db;
      this.unitOfWork := unitOfWork;
      this.cache := cache;
    }

    /**
     * `CreateAsync`: refuses a name pair that is taken; otherwise inserts
     * the author in a transaction (the save cannot hit the unique index,
     * since the name was checked), stamped with its creation time, and
     * evicts the author list. Every other cached view stays as right as it was.
     */
    method Create(request: CreateAuthorRequest, now: Timestamp, ghost stale: set<CacheKey>) returns (r: Result<AuthorDto>)
      requires Valid()
      modifies db`tables, db`nextId, cache
      ensures Valid()
      ensures AuthorRepository.ExistsByName(old(db.tables), request.firstName, request.lastName) ==>
        r == Fail(DuplicateAuthor) && db.tables == old(db.tables) && cache.entries == old(cache.entries)
      ensures !AuthorRepository.ExistsByName(old(db.tables), request.firstName, request.lastName) ==>
        r.Ok? && r.value.id !in old(db.tables).authors
        && r.value == AuthorDto(r.value.id, request.firstName, request.lastName)
        && db.tables == old(db.tables).(authors := old(db.tables).authors[r.value.id := Author(request.firstName, request.lastName, Times(now, None))])
        && cache.entries == old(cache.entries) - {AuthorsAll}
      ensures CoherentExcept(old(cache.entries), CatalogOf(old(db.tables)), stale) ==>
        CoherentExcept(cache.entries, CatalogOf(db.tables), stale)
    {
      if AuthorRepository.ExistsByName(db.tables, request.firstName, request.lastName) {
        return Fail(DuplicateAuthor);
      }
      ghost var before := db.tables;
      var id := db.NewId();
      var author := Author(request.firstName, request.lastName, Unstamped);
      var tx := unitOfWork.BeginTransaction();
      var pending := db.tables.(authors := db.tables.authors[id := author]);
      AuthorRepository.ExistsByNameDecidesUniqueness(db.tables, id, author);
      var error := unitOfWork.SaveChanges(pending, now);
      var thrown := unitOfWork.CompleteTransaction(tx, error, None);
      cache.Remove(AuthorsAll);
      r := Ok(AuthorDto(id, author.firstName, author.lastName));
      StampNewAuthor(before, id, author, now);
      CatalogOfStamped(before, pending, now);
      if CoherentExcept(old(cache.entries), CatalogOf(before), stale) {
        NewAuthorCoherence(old(cache.entries), before, id, author, db.tables, stale);
      }
    }

    /**
     * `GetAllAsync`: a read through the cache. A cached author list is
     * returned as it is; on a miss, or when the entry under the key holds
     * another type, the sorted list is built from the table and cached. What it returns is right whenever the entry was missing
     * or fresh, and the cache stays as right as it was.
     */
    method GetAll(ghost stale: set<CacheKey>) returns (r: Result<seq<AuthorDto>>)
      requires Valid()
      modifies cache
      ensures Valid() && r.Ok?
      ensures AuthorsAll in old(cache.entries) && old(cache.entries)[AuthorsAll].AuthorListValue? ==>
        r.value == old(cache.entries)[AuthorsAll].authors && cache.entries == old(cache.entries)
      ensures !(AuthorsAll in old(cache.entries) && old(cache.entries)[AuthorsAll].AuthorListValue?) ==>
        ListsAuthors(r.value, CatalogOf(db.tables)) && cache.entries == old(cache.entries)[AuthorsAll := AuthorListValue(r.value)]
      ensures ReadIsRight(old(cache.entries), CatalogOf(db.tables), stale, AuthorsAll) ==> ListsAuthors(r.value, CatalogOf(db.tables))
      ensures CoherentExcept(old(cache.entries), CatalogOf(db.tables), stale) ==>
        CoherentExcept(cache.entries, CatalogOf(db.tables), stale)
    {
      var hit := AsAuthorList(cache.Get(AuthorsAll));
      if hit.Some? {
        return Ok(hit.value);
      }
      var rows := Scan(db.tables.authors);
      var list := ToDtos(AuthorRepository.GetAll(rows));
      AuthorListFresh(db.tables, rows);
      cache.Set(AuthorsAll, AuthorListValue(list));
      r := Ok(list);
    }

    /** `GetByIdAsync`: the author's DTO, or an empty success when there is none. */
    method GetById(id: Id) returns (r: Result<Option<AuthorDto>>)
      requires Valid()
      ensures r.Ok?
      ensures r.value.None? <==> id !in db.tables.authors
      ensures r.value.Some? ==> r.value.value.id == id && r.value.value in CatalogOf(db.tables).authors
    {
      if id in db.tables.authors {
        r := Ok(Some(AuthorToDto(Keyed(id, db.tables.authors[id]))));
      } else {
        r := Ok(None);
      }
    }
  }
}
