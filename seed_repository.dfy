/**
 * The seed importer (src/DataAccess/BookStore.DataAccess/Repositories/SeedRepository.cs):
 * the "already seeded" test and the import of a parsed seed file.
 *
 * The file itself is a parameter: what reading and deserialising the file
 * at the given path yields (missing, unreadable, `null`, or parsed
 * records). Seed records name each other by local string ids; the import
 * adds one entity per record, maps each local id to the generated key of
 * the LAST record carrying it, and links rows through those maps, skipping
 * links whose local ids do not resolve.
 */
module SeedRepository {
  import opened Results
  import opened Entities
  import opened Sequences
  import opened Persistence
  import opened Transactions

  datatype SeedAuthor = SeedAuthor(id: string, firstName: string, lastName: string)
  datatype SeedStore = SeedStore(id: string, name: string, location: Option<string>)
  datatype SeedBook = SeedBook(id: string, isbn: string, title: string, description: Option<string>)
  datatype SeedBookAuthor = SeedBookAuthor(bookId: string, authorId: string)
  datatype SeedStoreBook = SeedStoreBook(storeId: string, bookId: string, quantity: int)

  datatype SeedData = SeedData(
    authors: seq<SeedAuthor>,
    stores: seq<SeedStore>,
    books: seq<SeedBook>,
    bookAuthors: seq<SeedBookAuthor>,
    storeBooks: seq<SeedStoreBook>)

  /**
   * What the file at the seed path yields: no file, a read or JSON error
   * (with its message), or the deserialised document, which is `None`
   * when the JSON is the literal `null`.
   */
  datatype SeedSource = Missing | Malformed(message: string) | Parsed(data: Option<SeedData>)

  const SeedFileNotFound: string := "Seed data file not found."
  const DeserializeFailed: string := "Failed to deserialize seed data."

  /** What the change tracker throws when a second `BookAuthor` or `StoreBook` with a tracked key is added. */
  const BookAuthorTracked: Exception := KeyTracked("BookAuthor", "'BookId', 'AuthorId'")
  const StoreBookTracked: Exception := KeyTracked("StoreBook", "'StoreId', 'BookId'")

  /** `IsSeededAsync`: some book, author or store exists. */
  predicate Populated(t: Tables)
  {
    |t.books| > 0 || |t.authors| > 0 || |t.stores| > 0
  }

  // ---------------------------------------------------------------------
  // Entities and local ids

  function AuthorKey(a: SeedAuthor): string { a.id }
  function StoreKey(s: SeedStore): string { s.id }
  function BookKey(b: SeedBook): string { b.id }

  /** The entity a seed author record constructs, before the save stamps it. */
  function AuthorOf(a: SeedAuthor): Author { Author(a.firstName, a.lastName, Unstamped) }
  function StoreOf(s: SeedStore): Store { Store(s.name, s.location, Unstamped) }
  function BookOf(b: SeedBook): Book { Book(b.isbn, b.title, b.description, Unstamped) }

  /** The entities a run of records adds, record `i` under key `base + i`. */
  function Numbered<R, E>(rs: seq<R>, base: nat, make: R -> E): map<Id, E>
    decreases |rs|
  {
    if rs == [] then map[]
    else Numbered(rs[..|rs| - 1], base, make)[base + |rs| - 1 := make(rs[|rs| - 1])]
  }

  /** The keys a run of records takes are exactly the next `|rs|` from `base`, record `i` under `base + i`. */
  lemma {:induction false} NumberedKeys<R, E>(rs: seq<R>, base: nat, make: R -> E)
    ensures forall id :: id in Numbered(rs, base, make) <==> base <= id < base + |rs|
    ensures forall i | 0 <= i < |rs| :: Numbered(rs, base, make)[base + i] == make(rs[i])
    decreases |rs|
  {
    if rs != [] {
      var prefix := rs[..|rs| - 1];
      NumberedKeys(prefix, base, make);
      forall i | 0 <= i < |prefix|
        ensures prefix[i] == rs[i]
      {
      }
    }
  }

  /**
   * The dictionary from local id to generated key after `map[r.Id] = entity`
   * for each record in turn, record `i` having key `base + i`.
   */
  function LocalIds<R>(rs: seq<R>, key: R -> string, base: nat): map<string, Id>
    decreases |rs|
  {
    if rs == [] then map[]
    else LocalIds(rs[..|rs| - 1], key, base)[key(rs[|rs| - 1]) := base + |rs| - 1]
  }

  /** Every local id is in the dictionary, and each maps to the key of a record carrying it. */
  lemma {:induction false} LocalIdsCover<R>(rs: seq<R>, key: R -> string, base: nat)
    ensures forall i | 0 <= i < |rs| :: key(rs[i]) in LocalIds(rs, key, base)
    ensures forall k | k in LocalIds(rs, key, base) ::
      exists i | 0 <= i < |rs| :: LocalIds(rs, key, base)[k] == base + i && key(rs[i]) == k
    decreases |rs|
  {
    if rs != [] {
      var prefix := rs[..|rs| - 1];
      var last := key(rs[|rs| - 1]);
      var m := LocalIds(rs, key, base);
      var p := LocalIds(prefix, key, base);
      assert m == p[last := base + |rs| - 1];
      LocalIdsCover(prefix, key, base);
      forall i | 0 <= i < |rs|
        ensures key(rs[i]) in m
      {
        if i < |prefix| {
          assert prefix[i] == rs[i];
        }
      }
      forall k | k in m
        ensures exists i | 0 <= i < |rs| :: m[k] == base + i && key(rs[i]) == k
      {
        if k == last {
          assert m[k] == base + (|rs| - 1) && key(rs[|rs| - 1]) == k;
        } else {
          var i :| 0 <= i < |prefix| && p[k] == base + i && key(prefix[i]) == k;
          assert prefix[i] == rs[i];
        }
      }
    }
  }

  /** The later record wins: a local id maps to the key of the last record carrying it. */
  lemma {:induction false} LocalIdsLaterWins<R>(rs: seq<R>, key: R -> string, base: nat, j: int)
    requires 0 <= j < |rs|
    requires forall k | j < k < |rs| :: key(rs[k]) != key(rs[j])
    ensures key(rs[j]) in LocalIds(rs, key, base) && LocalIds(rs, key, base)[key(rs[j])] == base + j
    decreases |rs|
  {
    LocalIdsCover(rs, key, base);
    if j < |rs| - 1 {
      var prefix := rs[..|rs| - 1];
      assert prefix[j] == rs[j];
      forall k | j < k < |prefix|
        ensures key(prefix[k]) != key(prefix[j])
      {
        assert prefix[k] == rs[k];
      }
      LocalIdsLaterWins(prefix, key, base, j);
    }
  }

  /** The key that each kind of record starts numbering from, after the kinds created before it. */
  function StoreBase(data: SeedData, base: nat): nat { base + |data.authors| }
  function BookBase(data: SeedData, base: nat): nat { base + |data.authors| + |data.stores| }

  function AuthorIds(data: SeedData, base: nat): map<string, Id> { LocalIds(data.authors, AuthorKey, base) }
  function StoreIds(data: SeedData, base: nat): map<string, Id> { LocalIds(data.stores, StoreKey, StoreBase(data, base)) }
  function BookIds(data: SeedData, base: nat): map<string, Id> { LocalIds(data.books, BookKey, BookBase(data, base)) }

  /** The tables once every record has added its entity, before the first save. */
  function WithSeedEntities(t: Tables, data: SeedData, base: nat): Tables
  {
    t.(authors := t.authors + Numbered(data.authors, base, AuthorOf),
       stores := t.stores + Numbered(data.stores, StoreBase(data, base), StoreOf),
       books := t.books + Numbered(data.books, BookBase(data, base), BookOf))
  }

  // ---------------------------------------------------------------------
  // Links

  /** The rows of a run of join rows, as a set. */
  function RowSet(links: seq<BookAuthor>): set<BookAuthor>
  {
    set l | l in links
  }

  /** The join rows the book-author records add, in order: a record whose ids do not both resolve adds none. */
  function ResolvedAuthorLinks(seeds: seq<SeedBookAuthor>, books: map<string, Id>, authors: map<string, Id>): seq<BookAuthor>
    decreases |seeds|
  {
    if seeds == [] then []
    else
      var rest := ResolvedAuthorLinks(seeds[..|seeds| - 1], books, authors);
      var s := seeds[|seeds| - 1];
      if s.bookId in books && s.authorId in authors then rest + [BookAuthor(books[s.bookId], authors[s.authorId])]
      else rest
  }

  lemma {:induction false} ResolvedAuthorLinksAppend(a: seq<SeedBookAuthor>, b: seq<SeedBookAuthor>, books: map<string, Id>, authors: map<string, Id>)
    ensures ResolvedAuthorLinks(a + b, books, authors) == ResolvedAuthorLinks(a, books, authors) + ResolvedAuthorLinks(b, books, authors)
    decreases |b|
  {
    if b == [] {
      assert a + b == a;
    } else {
      var b' := b[..|b| - 1];
      assert (a + b)[..|a + b| - 1] == a + b';
      ResolvedAuthorLinksAppend(a, b', books, authors);
    }
  }

  /**
   * A join row comes from the seed exactly when some record names a seed
   * book and a seed author, and it joins their generated keys.
   */
  lemma {:induction false} ResolvedAuthorLinksAre(seeds: seq<SeedBookAuthor>, books: map<string, Id>, authors: map<string, Id>, l: BookAuthor)
    ensures l in ResolvedAuthorLinks(seeds, books, authors) <==>
      exists s :: s in seeds && s.bookId in books && s.authorId in authors && l == BookAuthor(books[s.bookId], authors[s.authorId])
    decreases |seeds|
  {
    if seeds != [] {
      var prefix := seeds[..|seeds| - 1];
      var last := seeds[|seeds| - 1];
      ResolvedAuthorLinksAre(prefix, books, authors, l);
      assert seeds == prefix + [last];
      forall s | s in seeds
        ensures s in prefix || s == last
      {
      }
    }
  }

  /** A stock row a store-book record adds: its composite key and quantity. */
  datatype StockRow = StockRow(key: StoreBookKey, quantity: int)

  /** The stock rows the store-book records add, in order, skipping records whose ids do not both resolve. */
  function ResolvedStock(seeds: seq<SeedStoreBook>, stores: map<string, Id>, books: map<string, Id>): seq<StockRow>
    decreases |seeds|
  {
    if seeds == [] then []
    else
      var rest := ResolvedStock(seeds[..|seeds| - 1], stores, books);
      var s := seeds[|seeds| - 1];
      if s.storeId in stores && s.bookId in books then rest + [StockRow(StoreBookKey(stores[s.storeId], books[s.bookId]), s.quantity)]
      else rest
  }

  lemma {:induction false} ResolvedStockAppend(a: seq<SeedStoreBook>, b: seq<SeedStoreBook>, stores: map<string, Id>, books: map<string, Id>)
    ensures ResolvedStock(a + b, stores, books) == ResolvedStock(a, stores, books) + ResolvedStock(b, stores, books)
    decreases |b|
  {
    if b == [] {
      assert a + b == a;
    } else {
      var b' := b[..|b| - 1];
      assert (a + b)[..|a + b| - 1] == a + b';
      ResolvedStockAppend(a, b', stores, books);
    }
  }

  lemma {:induction false} ResolvedStockAre(seeds: seq<SeedStoreBook>, stores: map<string, Id>, books: map<string, Id>, row: StockRow)
    ensures row in ResolvedStock(seeds, stores, books) <==>
      exists s :: s in seeds && s.storeId in stores && s.bookId in books
        && row == StockRow(StoreBookKey(stores[s.storeId], books[s.bookId]), s.quantity)
    decreases |seeds|
  {
    if seeds != [] {
      var prefix := seeds[..|seeds| - 1];
      var last := seeds[|seeds| - 1];
      ResolvedStockAre(prefix, stores, books, row);
      assert seeds == prefix + [last];
      forall s | s in seeds
        ensures s in prefix || s == last
      {
      }
    }
  }

  /** No two stock rows share a key: the change tracker accepts every `Add`. */
  predicate DistinctKeys(rows: seq<StockRow>)
  {
    forall i, j | 0 <= i < j < |rows| :: rows[i].key != rows[j].key
  }

  /** The StoreBooks rows a run of stock rows adds. */
  function StockMap(rows: seq<StockRow>): (m: map<StoreBookKey, int>)
    ensures forall k :: k in m <==> exists i :: 0 <= i < |rows| && rows[i].key == k
    decreases |rows|
  {
    if rows == [] then map[]
    else
      var last := rows[|rows| - 1];
      var m := StockMap(rows[..|rows| - 1]);
      assert forall i | 0 <= i < |rows| - 1 :: rows[..|rows| - 1][i] == rows[i];
      m[last.key := last.quantity]
  }

  /** With distinct keys, every stock row is stored with its own quantity. */
  lemma {:induction false} StockMapQuantities(rows: seq<StockRow>, i: int)
    requires DistinctKeys(rows) && 0 <= i < |rows|
    ensures StockMap(rows)[rows[i].key] == rows[i].quantity
    decreases |rows|
  {
    if i < |rows| - 1 {
      var prefix := rows[..|rows| - 1];
      assert prefix[i] == rows[i];
      StockMapQuantities(prefix, i);
    }
  }

  // ---------------------------------------------------------------------
  // The import as a whole

  /** The join rows the book-author records resolve to. */
  function SeedLinks(data: SeedData, base: nat): seq<BookAuthor>
  {
    ResolvedAuthorLinks(data.bookAuthors, BookIds(data, base), AuthorIds(data, base))
  }

  /** The stock rows the store-book records resolve to. */
  function SeedStock(data: SeedData, base: nat): seq<StockRow>
  {
    ResolvedStock(data.storeBooks, StoreIds(data, base), BookIds(data, base))
  }

  /**
   * What an import of `data` throws, with `base` the first key the context
   * hands out: the first save fails on a unique index, or adding a join row
   * whose key the change tracker already holds throws.
   */
  function SeedingError(t: Tables, data: SeedData, base: nat): Option<Exception>
  {
    if !Constraints(WithSeedEntities(t, data, base)) then Some(DbUpdate(DbUpdateMessage))
    else if !NoDuplicates(SeedLinks(data, base)) then Some(BookAuthorTracked)
    else if !DistinctKeys(SeedStock(data, base)) then Some(StoreBookTracked)
    else None
  }

  /** The tables after both saves of an import that throws nothing, `now` being the clock at both. */
  function SeededTables(t: Tables, data: SeedData, base: nat, now: Timestamp): Tables
  {
    var saved := StampTables(t, WithSeedEntities(t, data, base), now);
    saved.(bookAuthors := saved.bookAuthors + RowSet(SeedLinks(data, base)),
           storeBooks := saved.storeBooks + StockMap(SeedStock(data, base)))
  }

  /** An import of a parsed document in one transaction: anything thrown rolls it back. */
  function Seeding(t: Tables, data: SeedData, base: nat, now: Timestamp): (Tables, Option<Exception>)
  {
    var error := SeedingError(t, data, base);
    if error.Some? then (t, error) else (SeededTables(t, data, base, now), None)
  }

  /** `SeedFromFileAsync` for whatever the file at `path` yields. */
  function SeedOutcome(t: Tables, path: string, source: SeedSource, base: nat, now: Timestamp): (Tables, Option<Exception>)
  {
    match source
    case Missing => (t, Some(FileNotFound(SeedFileNotFound, path)))
    case Malformed(message) => (t, Some(JsonError(message)))
    case Parsed(None) => (t, Some(InvalidOperation(DeserializeFailed)))
    case Parsed(Some(data)) => Seeding(t, data, base, now)
  }

  /**
   * An import adds exactly one author per seed author record, under the
   * key numbered for it and carrying that record's names, stamped with its
   * creation time, and leaves every existing author as it was.
   */
  lemma SeededAuthors(t: Tables, data: SeedData, base: nat, now: Timestamp)
    requires KeysBelow(t, base)
    ensures var r := SeededTables(t, data, base, now);
      (forall id :: id in r.authors <==> id in t.authors || base <= id < StoreBase(data, base))
      && (forall id | id in t.authors :: r.authors[id] == t.authors[id])
      && (forall i | 0 <= i < |data.authors| ::
            r.authors[base + i] == Author(data.authors[i].firstName, data.authors[i].lastName, Times(now, None)))
  {
    SeededEntities(t, data, base, now);
    StampedSeedAuthors(t, data, base, now);
  }

  /** The same for stores: one per seed store record, with its name and location. */
  lemma SeededStores(t: Tables, data: SeedData, base: nat, now: Timestamp)
    requires KeysBelow(t, base)
    ensures var r := SeededTables(t, data, base, now);
      (forall id :: id in r.stores <==> id in t.stores || StoreBase(data, base) <= id < BookBase(data, base))
      && (forall id | id in t.stores :: r.stores[id] == t.stores[id])
      && (forall i | 0 <= i < |data.stores| ::
            r.stores[StoreBase(data, base) + i] == Store(data.stores[i].name, data.stores[i].location, Times(now, None)))
  {
    SeededEntities(t, data, base, now);
    StampedSeedStores(t, data, base, now);
  }

  /** The same for books: one per seed book record, with its ISBN, title and description. */
  lemma SeededBooks(t: Tables, data: SeedData, base: nat, now: Timestamp)
    requires KeysBelow(t, base)
    ensures var r := SeededTables(t, data, base, now);
      (forall id :: id in r.books <==> id in t.books || BookBase(data, base) <= id < BookBase(data, base) + |data.books|)
      && (forall id | id in t.books :: r.books[id] == t.books[id])
      && (forall i | 0 <= i < |data.books| ::
            r.books[BookBase(data, base) + i] == Book(data.books[i].isbn, data.books[i].title, data.books[i].description, Times(now, None)))
  {
    SeededEntities(t, data, base, now);
    StampedSeedBooks(t, data, base, now);
  }

  /** The second save adds only join rows: the entity tables are those the first save left. */
  lemma SeededEntities(t: Tables, data: SeedData, base: nat, now: Timestamp)
    ensures var s := StampTables(t, WithSeedEntities(t, data, base), now);
      var r := SeededTables(t, data, base, now);
      r.authors == s.authors && r.stores == s.stores && r.books == s.books
  { }

  lemma StampedSeedAuthors(t: Tables, data: SeedData, base: nat, now: Timestamp)
    requires KeysBelow(t, base)
    ensures var r := StampTables(t, WithSeedEntities(t, data, base), now);
      (forall id :: id in r.authors <==> id in t.authors || base <= id < StoreBase(data, base))
      && (forall id | id in t.authors :: r.authors[id] == t.authors[id])
      && (forall i | 0 <= i < |data.authors| ::
            r.authors[base + i] == Author(data.authors[i].firstName, data.authors[i].lastName, Times(now, None)))
  {
    var entities := WithSeedEntities(t, data, base);
    NumberedKeys(data.authors, base, AuthorOf);
    forall id | id in t.authors
      ensures StampTables(t, entities, now).authors[id] == t.authors[id]
    {
      assert entities.authors[id] == t.authors[id];
      StampTablesAuthors(t, entities, now, id);
    }
    forall i | 0 <= i < |data.authors|
      ensures StampTables(t, entities, now).authors[base + i] == AuthorOf(data.authors[i]).(times := Times(now, None))
    {
      StampTablesAuthors(t, entities, now, base + i);
    }
  }

  lemma StampedSeedStores(t: Tables, data: SeedData, base: nat, now: Timestamp)
    requires KeysBelow(t, base)
    ensures var r := StampTables(t, WithSeedEntities(t, data, base), now);
      (forall id :: id in r.stores <==> id in t.stores || StoreBase(data, base) <= id < BookBase(data, base))
      && (forall id | id in t.stores :: r.stores[id] == t.stores[id])
      && (forall i | 0 <= i < |data.stores| ::
            r.stores[StoreBase(data, base) + i] == Store(data.stores[i].name, data.stores[i].location, Times(now, None)))
  {
    var entities := WithSeedEntities(t, data, base);
    NumberedKeys(data.stores, StoreBase(data, base), StoreOf);
    forall id | id in t.stores
      ensures StampTables(t, entities, now).stores[id] == t.stores[id]
    {
      assert entities.stores[id] == t.stores[id];
      StampTablesStores(t, entities, now, id);
    }
    forall i | 0 <= i < |data.stores|
      ensures StampTables(t, entities, now).stores[StoreBase(data, base) + i] == StoreOf(data.stores[i]).(times := Times(now, None))
    {
      StampTablesStores(t, entities, now, StoreBase(data, base) + i);
    }
  }

  lemma StampedSeedBooks(t: Tables, data: SeedData, base: nat, now: Timestamp)
    requires KeysBelow(t, base)
    ensures var r := StampTables(t, WithSeedEntities(t, data, base), now);
      (forall id :: id in r.books <==> id in t.books || BookBase(data, base) <= id < BookBase(data, base) + |data.books|)
      && (forall id | id in t.books :: r.books[id] == t.books[id])
      && (forall i | 0 <= i < |data.books| ::
            r.books[BookBase(data, base) + i] == Book(data.books[i].isbn, data.books[i].title, data.books[i].description, Times(now, None)))
  {
    var entities := WithSeedEntities(t, data, base);
    NumberedKeys(data.books, BookBase(data, base), BookOf);
    forall id | id in t.books
      ensures StampTables(t, entities, now).books[id] == t.books[id]
    {
      assert entities.books[id] == t.books[id];
      StampTablesBooks(t, entities, now, id);
    }
    forall i | 0 <= i < |data.books|
      ensures StampTables(t, entities, now).books[BookBase(data, base) + i] == BookOf(data.books[i]).(times := Times(now, None))
    {
      StampTablesBooks(t, entities, now, BookBase(data, base) + i);
    }
  }

  /**
   * An import adds exactly the join rows its records resolve to: a
   * book-author record whose book or author local id names no seed record
   * adds nothing, and a store-book record that resolves is stored with its
   * own quantity.
   */
  lemma SeededLinks(t: Tables, data: SeedData, base: nat, now: Timestamp)
    requires DistinctKeys(SeedStock(data, base))
    ensures var r := SeededTables(t, data, base, now);
      var books := BookIds(data, base);
      var authors := AuthorIds(data, base);
      var stores := StoreIds(data, base);
      (forall l :: l in r.bookAuthors <==> (l in t.bookAuthors
        || exists s :: s in data.bookAuthors && s.bookId in books && s.authorId in authors
             && l == BookAuthor(books[s.bookId], authors[s.authorId])))
      && (forall s | s in data.storeBooks && s.storeId in stores && s.bookId in books ::
            var k := StoreBookKey(stores[s.storeId], books[s.bookId]);
            k in r.storeBooks && r.storeBooks[k] == s.quantity)
  {
    SeededAuthorLinks(t, data, base, now);
    SeededStock(t, data, base, now);
  }

  lemma SeededAuthorLinks(t: Tables, data: SeedData, base: nat, now: Timestamp)
    ensures var r := SeededTables(t, data, base, now);
      var books := BookIds(data, base);
      var authors := AuthorIds(data, base);
      forall l :: l in r.bookAuthors <==> (l in t.bookAuthors
        || exists s :: s in data.bookAuthors && s.bookId in books && s.authorId in authors
             && l == BookAuthor(books[s.bookId], authors[s.authorId]))
  {
    var books := BookIds(data, base);
    var authors := AuthorIds(data, base);
    var r := SeededTables(t, data, base, now);
    assert r.bookAuthors == t.bookAuthors + RowSet(SeedLinks(data, base));
    forall l
      ensures l in r.bookAuthors <==> (l in t.bookAuthors
        || exists s :: s in data.bookAuthors && s.bookId in books && s.authorId in authors
             && l == BookAuthor(books[s.bookId], authors[s.authorId]))
    {
      ResolvedAuthorLinksAre(data.bookAuthors, books, authors, l);
    }
  }

  lemma SeededStock(t: Tables, data: SeedData, base: nat, now: Timestamp)
    requires DistinctKeys(SeedStock(data, base))
    ensures var r := SeededTables(t, data, base, now);
      var books := BookIds(data, base);
      var stores := StoreIds(data, base);
      forall s | s in data.storeBooks && s.storeId in stores && s.bookId in books ::
        var k := StoreBookKey(stores[s.storeId], books[s.bookId]);
        k in r.storeBooks && r.storeBooks[k] == s.quantity
  {
    var books := BookIds(data, base);
    var stores := StoreIds(data, base);
    var stock := SeedStock(data, base);
    var r := SeededTables(t, data, base, now);
    assert r.storeBooks == t.storeBooks + StockMap(stock);
    forall s | s in data.storeBooks && s.storeId in stores && s.bookId in books
      ensures var k := StoreBookKey(stores[s.storeId], books[s.bookId]);
        k in r.storeBooks && r.storeBooks[k] == s.quantity
    {
      var row := StockRow(StoreBookKey(stores[s.storeId], books[s.bookId]), s.quantity);
      ResolvedStockAre(data.storeBooks, stores, books, row);
      var i :| 0 <= i < |stock| && stock[i] == row;
      StockMapQuantities(stock, i);
    }
  }

  /** Two seed books with one ISBN, or a seed book reusing a stored ISBN, fail the first save and change nothing. */
  lemma SeedingRejectsDuplicateIsbn(t: Tables, data: SeedData, base: nat, now: Timestamp)
    requires KeysBelow(t, base)
    requires (exists i, j :: 0 <= i < j < |data.books| && data.books[i].isbn == data.books[j].isbn)
      || (exists i, id :: 0 <= i < |data.books| && id in t.books && t.books[id].isbn == data.books[i].isbn)
    ensures Seeding(t, data, base, now) == (t, Some(DbUpdate(DbUpdateMessage)))
  {
    DuplicateIsbnBreaksIndex(t, data, base);
    BrokenIndexFailsSeeding(t, data, base, now);
  }

  lemma DuplicateIsbnBreaksIndex(t: Tables, data: SeedData, base: nat)
    requires KeysBelow(t, base)
    requires (exists i, j :: 0 <= i < j < |data.books| && data.books[i].isbn == data.books[j].isbn)
      || (exists i, id :: 0 <= i < |data.books| && id in t.books && t.books[id].isbn == data.books[i].isbn)
    ensures !UniqueIsbn(WithSeedEntities(t, data, base))
  {
    var entities := WithSeedEntities(t, data, base);
    var b := BookBase(data, base);
    NumberedKeys(data.books, b, BookOf);
    if exists i, j :: 0 <= i < j < |data.books| && data.books[i].isbn == data.books[j].isbn {
      var i, j :| 0 <= i < j < |data.books| && data.books[i].isbn == data.books[j].isbn;
      assert entities.books[b + i].isbn == entities.books[b + j].isbn;
    } else {
      var i, id :| 0 <= i < |data.books| && id in t.books && t.books[id].isbn == data.books[i].isbn;
      assert entities.books[id].isbn == entities.books[b + i].isbn;
    }
  }

  /** Two seed authors with one name pair, or one reusing a stored name pair, fail the first save and change nothing. */
  lemma SeedingRejectsDuplicateName(t: Tables, data: SeedData, base: nat, now: Timestamp)
    requires KeysBelow(t, base)
    requires (exists i, j :: 0 <= i < j < |data.authors| && data.authors[i].firstName == data.authors[j].firstName
                && data.authors[i].lastName == data.authors[j].lastName)
      || (exists i, id :: 0 <= i < |data.authors| && id in t.authors && t.authors[id].firstName == data.authors[i].firstName
                && t.authors[id].lastName == data.authors[i].lastName)
    ensures Seeding(t, data, base, now) == (t, Some(DbUpdate(DbUpdateMessage)))
  {
    DuplicateNameBreaksIndex(t, data, base);
    BrokenIndexFailsSeeding(t, data, base, now);
  }

  lemma DuplicateNameBreaksIndex(t: Tables, data: SeedData, base: nat)
    requires KeysBelow(t, base)
    requires (exists i, j :: 0 <= i < j < |data.authors| && data.authors[i].firstName == data.authors[j].firstName
                && data.authors[i].lastName == data.authors[j].lastName)
      || (exists i, id :: 0 <= i < |data.authors| && id in t.authors && t.authors[id].firstName == data.authors[i].firstName
                && t.authors[id].lastName == data.authors[i].lastName)
    ensures !UniqueAuthorName(WithSeedEntities(t, data, base))
  {
    var entities := WithSeedEntities(t, data, base);
    NumberedKeys(data.authors, base, AuthorOf);
    if exists i, j :: 0 <= i < j < |data.authors| && data.authors[i].firstName == data.authors[j].firstName
         && data.authors[i].lastName == data.authors[j].lastName {
      var i, j :| 0 <= i < j < |data.authors| && data.authors[i].firstName == data.authors[j].firstName
        && data.authors[i].lastName == data.authors[j].lastName;
      assert entities.authors[base + i].lastName == entities.authors[base + j].lastName;
    } else {
      var i, id :| 0 <= i < |data.authors| && id in t.authors && t.authors[id].firstName == data.authors[i].firstName
        && t.authors[id].lastName == data.authors[i].lastName;
      assert entities.authors[id].lastName == entities.authors[base + i].lastName;
    }
  }

  /** A unique index or foreign key the added entities break fails the whole import on its first save. */
  lemma BrokenIndexFailsSeeding(t: Tables, data: SeedData, base: nat, now: Timestamp)
    requires !UniqueIsbn(WithSeedEntities(t, data, base)) || !UniqueAuthorName(WithSeedEntities(t, data, base))
    ensures Seeding(t, data, base, now) == (t, Some(DbUpdate(DbUpdateMessage)))
  {
    assert !Constraints(WithSeedEntities(t, data, base));
  }

  /** After an import of at least one author, store or book that throws nothing, the database counts as seeded. */
  lemma SeedingPopulates(t: Tables, data: SeedData, base: nat, now: Timestamp)
    requires KeysBelow(t, base)
    requires |data.authors| + |data.stores| + |data.books| > 0
    ensures Populated(SeededTables(t, data, base, now))
  {
    var r := SeededTables(t, data, base, now);
    if |data.authors| > 0 {
      SeededAuthors(t, data, base, now);
      assert base in r.authors;
    } else if |data.stores| > 0 {
      SeededStores(t, data, base, now);
      assert StoreBase(data, base) in r.stores;
    } else {
      SeededBooks(t, data, base, now);
      assert BookBase(data, base) in r.books;
    }
  }

  /** Every join row an import resolves points at rows of its entity tables. */
  lemma ResolvedRowsExist(t: Tables, data: SeedData, base: nat)
    ensures var e := WithSeedEntities(t, data, base);
      (forall l | l in SeedLinks(data, base) :: l.bookId in e.books && l.authorId in e.authors)
      && (forall row | row in SeedStock(data, base) :: row.key.storeId in e.stores && row.key.bookId in e.books)
  {
    ResolvedLinksExist(t, data, base);
    ResolvedStockExists(t, data, base);
  }

  lemma ResolvedLinksExist(t: Tables, data: SeedData, base: nat)
    ensures var e := WithSeedEntities(t, data, base);
      forall l | l in SeedLinks(data, base) :: l.bookId in e.books && l.authorId in e.authors
  {
    var e := WithSeedEntities(t, data, base);
    var books := BookIds(data, base);
    var authors := AuthorIds(data, base);
    LocalIdsNumbered(data.authors, AuthorKey, base, AuthorOf);
    LocalIdsNumbered(data.books, BookKey, BookBase(data, base), BookOf);
    forall l | l in SeedLinks(data, base)
      ensures l.bookId in e.books && l.authorId in e.authors
    {
      ResolvedAuthorLinksAre(data.bookAuthors, books, authors, l);
      var s :| s in data.bookAuthors && s.bookId in books && s.authorId in authors && l == BookAuthor(books[s.bookId], authors[s.authorId]);
      assert books[s.bookId] in Numbered(data.books, BookBase(data, base), BookOf);
      assert authors[s.authorId] in Numbered(data.authors, base, AuthorOf);
    }
  }

  lemma ResolvedStockExists(t: Tables, data: SeedData, base: nat)
    ensures var e := WithSeedEntities(t, data, base);
      forall row | row in SeedStock(data, base) :: row.key.storeId in e.stores && row.key.bookId in e.books
  {
    var e := WithSeedEntities(t, data, base);
    var stores := StoreIds(data, base);
    var books := BookIds(data, base);
    LocalIdsNumbered(data.stores, StoreKey, StoreBase(data, base), StoreOf);
    LocalIdsNumbered(data.books, BookKey, BookBase(data, base), BookOf);
    forall row | row in SeedStock(data, base)
      ensures row.key.storeId in e.stores && row.key.bookId in e.books
    {
      ResolvedStockAre(data.storeBooks, stores, books, row);
      var s :| s in data.storeBooks && s.storeId in stores && s.bookId in books
        && row == StockRow(StoreBookKey(stores[s.storeId], books[s.bookId]), s.quantity);
      assert stores[s.storeId] in Numbered(data.stores, StoreBase(data, base), StoreOf);
      assert books[s.bookId] in Numbered(data.books, BookBase(data, base), BookOf);
    }
  }

  /** A local id names a key that its run of records added. */
  lemma LocalIdsNumbered<R, E>(rs: seq<R>, key: R -> string, base: nat, make: R -> E)
    ensures forall k | k in LocalIds(rs, key, base) :: LocalIds(rs, key, base)[k] in Numbered(rs, base, make)
  {
    LocalIdsCover(rs, key, base);
    NumberedKeys(rs, base, make);
    forall k | k in LocalIds(rs, key, base)
      ensures LocalIds(rs, key, base)[k] in Numbered(rs, base, make)
    {
      var i :| 0 <= i < |rs| && LocalIds(rs, key, base)[k] == base + i && key(rs[i]) == k;
    }
  }

  class SeedRepository {
    const db: BookStoreDbContext
    const unitOfWork: UnitOfWork

    ghost predicate Valid()
      reads db
    {
      unitOfWork.context == db && db.Valid()
    }

    constructor(db: BookStoreDbContext, unitOfWork: UnitOfWork)
      requires unitOfWork.context == db
      ensures this.db == db && this.unitOfWork == unitOfWork
    {
      this.db := db;
      this.unitOfWork := unitOfWork;
    }

    /** `IsSeededAsync`: true exactly when a book, an author or a store exists. */
    method IsSeeded() returns (seeded: bool)
      requires Valid()
      ensures seeded <==> db.tables.books != map[] || db.tables.authors != map[] || db.tables.stores != map[]
      ensures seeded == Populated(db.tables)
    {
      seeded := |db.tables.books| > 0;
      if !seeded {
        seeded := |db.tables.authors| > 0;
      }
      if !seeded {
        seeded := |db.tables.stores| > 0;
      }
    }

    /**
     * `SeedFromFileAsync`: throws before any write when the file is
     * missing, unreadable or `null`; otherwise runs the import in one
     * transaction, so that it either writes everything or nothing.
     */
    method SeedFromFile(path: string, source: SeedSource, now: Timestamp) returns (thrown: Option<Exception>)
      requires Valid()
      modifies db`tables, db`nextId
      ensures Valid()
      ensures (db.tables, thrown) == SeedOutcome(old(db.tables), path, source, old(db.nextId), now)
      ensures thrown.Some? ==> db.tables == old(db.tables)
    {
      if source.Missing? {
        return Some(FileNotFound(SeedFileNotFound, path));
      }
      if source.Malformed? {
        return Some(JsonError(source.message));
      }
      if source.data.None? {
        return Some(InvalidOperation(DeserializeFailed));
      }
      var data := source.data.value;
      ghost var t := db.tables;
      ghost var base := db.nextId;
      var tx := unitOfWork.BeginTransaction();
      var pending, authorMap, storeMap, bookMap := AddEntities(data);
      var error := unitOfWork.SaveChanges(pending, now);
      if error.Some? {
        thrown := unitOfWork.CompleteTransaction(tx, error, None);
        return;
      }
      var links, linkConflict := TrackBookAuthors(data.bookAuthors, bookMap, authorMap);
      if linkConflict {
        thrown := unitOfWork.CompleteTransaction(tx, Some(BookAuthorTracked), None);
        return;
      }
      var stock, stockConflict := TrackStoreBooks(data.storeBooks, storeMap, bookMap);
      if stockConflict {
        thrown := unitOfWork.CompleteTransaction(tx, Some(StoreBookTracked), None);
        return;
      }
      assert SeedingError(t, data, base) == None;
      var linked := db.tables.(bookAuthors := db.tables.bookAuthors + links, storeBooks := db.tables.storeBooks + stock);
      assert linked == SeededTables(t, data, base, now);
      LinkedConstraints(t, data, base, now);
      StampUnchangedEntities(db.tables, linked, now);
      error := unitOfWork.SaveChanges(linked, now);
      thrown := unitOfWork.CompleteTransaction(tx, error, None);
    }

    /**
     * The three creation loops: one new entity per record under the next
     * key, and the local-id dictionaries in which the later record wins.
     * Nothing is saved yet.
     */
    method AddEntities(data: SeedData) returns (pending: Tables, authorMap: map<string, Id>, storeMap: map<string, Id>, bookMap: map<string, Id>)
      requires Valid()
      modifies db`nextId
      ensures Valid()
      ensures db.nextId == BookBase(data, old(db.nextId)) + |data.books|
      ensures pending == WithSeedEntities(db.tables, data, old(db.nextId))
      ensures authorMap == AuthorIds(data, old(db.nextId))
      ensures storeMap == StoreIds(data, old(db.nextId))
      ensures bookMap == BookIds(data, old(db.nextId))
      ensures KeysBelow(pending, db.nextId)
    {
      ghost var base := db.nextId;
      var authors, stores, books;
      authors, authorMap := AddAuthors(data.authors);
      assert db.nextId == StoreBase(data, base);
      stores, storeMap := AddStores(data.stores);
      assert db.nextId == BookBase(data, base);
      books, bookMap := AddBooks(data.books);
      pending := db.tables.(authors := db.tables.authors + authors, stores := db.tables.stores + stores, books := db.tables.books + books);
      EntitiesBelow(db.tables, data, base);
    }

    /** "Create authors": one author per record under the next key; the later record wins in the dictionary. */
    method AddAuthors(seeds: seq<SeedAuthor>) returns (added: map<Id, Author>, ids: map<string, Id>)
      requires Valid()
      modifies db`nextId
      ensures Valid() && db.nextId == old(db.nextId) + |seeds|
      ensures added == Numbered(seeds, old(db.nextId), AuthorOf)
      ensures ids == LocalIds(seeds, AuthorKey, old(db.nextId))
    {
      ghost var base := db.nextId;
      added, ids := map[], map[];
      var i := 0;
      while i < |seeds|
        invariant 0 <= i <= |seeds|
        invariant db.Valid() && db.nextId == base + i
        invariant ids == LocalIds(seeds[..i], AuthorKey, base)
        invariant added == Numbered(seeds[..i], base, AuthorOf)
      {
        var a := seeds[i];
        var id := db.NewId();
        assert seeds[..i + 1][..i] == seeds[..i];
        ids := ids[a.id := id];
        added := added[id := AuthorOf(a)];
        i := i + 1;
      }
      assert seeds[..i] == seeds;
    }

    /** "Create stores": one store per record under the next key; the later record wins in the dictionary. */
    method AddStores(seeds: seq<SeedStore>) returns (added: map<Id, Store>, ids: map<string, Id>)
      requires Valid()
      modifies db`nextId
      ensures Valid() && db.nextId == old(db.nextId) + |seeds|
      ensures added == Numbered(seeds, old(db.nextId), StoreOf)
      ensures ids == LocalIds(seeds, StoreKey, old(db.nextId))
    {
      ghost var base := db.nextId;
      added, ids := map[], map[];
      var i := 0;
      while i < |seeds|
        invariant 0 <= i <= |seeds|
        invariant db.Valid() && db.nextId == base + i
        invariant ids == LocalIds(seeds[..i], StoreKey, base)
        invariant added == Numbered(seeds[..i], base, StoreOf)
      {
        var s := seeds[i];
        var id := db.NewId();
        assert seeds[..i + 1][..i] == seeds[..i];
        ids := ids[s.id := id];
        added := added[id := StoreOf(s)];
        i := i + 1;
      }
      assert seeds[..i] == seeds;
    }

    /** "Create books": one book per record under the next key; the later record wins in the dictionary. */
    method AddBooks(seeds: seq<SeedBook>) returns (added: map<Id, Book>, ids: map<string, Id>)
      requires Valid()
      modifies db`nextId
      ensures Valid() && db.nextId == old(db.nextId) + |seeds|
      ensures added == Numbered(seeds, old(db.nextId), BookOf)
      ensures ids == LocalIds(seeds, BookKey, old(db.nextId))
    {
      ghost var base := db.nextId;
      added, ids := map[], map[];
      var i := 0;
      while i < |seeds|
        invariant 0 <= i <= |seeds|
        invariant db.Valid() && db.nextId == base + i
        invariant ids == LocalIds(seeds[..i], BookKey, base)
        invariant added == Numbered(seeds[..i], base, BookOf)
      {
        var b := seeds[i];
        var id := db.NewId();
        assert seeds[..i + 1][..i] == seeds[..i];
        ids := ids[b.id := id];
        added := added[id := BookOf(b)];
        i := i + 1;
      }
      assert seeds[..i] == seeds;
    }
  }

  /**
   * The book-author loop: adds each resolving record's join row to the
   * change tracker, skipping records that do not resolve, and reports a
   * conflict at the first row whose key is already tracked.
   */
  method TrackBookAuthors(seeds: seq<SeedBookAuthor>, books: map<string, Id>, authors: map<string, Id>)
    returns (links: set<BookAuthor>, conflict: bool)
    ensures conflict <==> !NoDuplicates(ResolvedAuthorLinks(seeds, books, authors))
    ensures !conflict ==> links == RowSet(ResolvedAuthorLinks(seeds, books, authors))
  {
    links := {};
    var i := 0;
    while i < |seeds|
      invariant 0 <= i <= |seeds|
      invariant NoDuplicates(ResolvedAuthorLinks(seeds[..i], books, authors))
      invariant links == RowSet(ResolvedAuthorLinks(seeds[..i], books, authors))
    {
      var ba := seeds[i];
      if ba.bookId in books && ba.authorId in authors {
        var link := BookAuthor(books[ba.bookId], authors[ba.authorId]);
        if link in links {
          AuthorLinkConflict(seeds, i, books, authors);
          return links, true;
        }
        AuthorLinkStep(seeds, i, books, authors, links);
        links := links + {link};
      } else {
        AuthorLinkStep(seeds, i, books, authors, links);
      }
      i := i + 1;
    }
    assert seeds[..i] == seeds;
    conflict := false;
  }

  /**
   * The store-book loop: adds each resolving record's stock row with its
   * quantity, skipping records that do not resolve, and reports a conflict
   * at the first key already tracked.
   */
  method TrackStoreBooks(seeds: seq<SeedStoreBook>, stores: map<string, Id>, books: map<string, Id>)
    returns (stock: map<StoreBookKey, int>, conflict: bool)
    ensures conflict <==> !DistinctKeys(ResolvedStock(seeds, stores, books))
    ensures !conflict ==> stock == StockMap(ResolvedStock(seeds, stores, books))
  {
    stock := map[];
    var i := 0;
    while i < |seeds|
      invariant 0 <= i <= |seeds|
      invariant DistinctKeys(ResolvedStock(seeds[..i], stores, books))
      invariant stock == StockMap(ResolvedStock(seeds[..i], stores, books))
    {
      var sb := seeds[i];
      if sb.storeId in stores && sb.bookId in books {
        var key := StoreBookKey(stores[sb.storeId], books[sb.bookId]);
        if key in stock {
          StockConflict(seeds, i, stores, books);
          return stock, true;
        }
        StockStep(seeds, i, stores, books);
        stock := stock[key := sb.quantity];
      } else {
        StockStep(seeds, i, stores, books);
      }
      i := i + 1;
    }
    assert seeds[..i] == seeds;
    conflict := false;
  }

  /** A join row the tracker already holds means the whole run of rows repeats one. */
  lemma AuthorLinkConflict(seeds: seq<SeedBookAuthor>, i: int, books: map<string, Id>, authors: map<string, Id>)
    requires 0 <= i < |seeds| && seeds[i].bookId in books && seeds[i].authorId in authors
    requires BookAuthor(books[seeds[i].bookId], authors[seeds[i].authorId]) in ResolvedAuthorLinks(seeds[..i], books, authors)
    ensures !NoDuplicates(ResolvedAuthorLinks(seeds, books, authors))
  {
    var prefix := ResolvedAuthorLinks(seeds[..i], books, authors);
    var l := BookAuthor(books[seeds[i].bookId], authors[seeds[i].authorId]);
    assert seeds[..i + 1][..i] == seeds[..i];
    assert ResolvedAuthorLinks(seeds[..i + 1], books, authors) == prefix + [l];
    assert seeds == seeds[..i + 1] + seeds[i + 1..];
    ResolvedAuthorLinksAppend(seeds[..i + 1], seeds[i + 1..], books, authors);
    var all := ResolvedAuthorLinks(seeds, books, authors);
    var j :| 0 <= j < |prefix| && prefix[j] == l;
    assert all[j] == all[|prefix|];
  }

  lemma StockConflict(seeds: seq<SeedStoreBook>, i: int, stores: map<string, Id>, books: map<string, Id>)
    requires 0 <= i < |seeds| && seeds[i].storeId in stores && seeds[i].bookId in books
    requires StoreBookKey(stores[seeds[i].storeId], books[seeds[i].bookId]) in StockMap(ResolvedStock(seeds[..i], stores, books))
    ensures !DistinctKeys(ResolvedStock(seeds, stores, books))
  {
    var prefix := ResolvedStock(seeds[..i], stores, books);
    var row := StockRow(StoreBookKey(stores[seeds[i].storeId], books[seeds[i].bookId]), seeds[i].quantity);
    assert seeds[..i + 1][..i] == seeds[..i];
    assert ResolvedStock(seeds[..i + 1], stores, books) == prefix + [row];
    assert seeds == seeds[..i + 1] + seeds[i + 1..];
    ResolvedStockAppend(seeds[..i + 1], seeds[i + 1..], stores, books);
    var all := ResolvedStock(seeds, stores, books);
    var j :| 0 <= j < |prefix| && prefix[j].key == row.key;
    assert all[j].key == all[|prefix|].key;
  }

  lemma StockSnoc(rows: seq<StockRow>, row: StockRow)
    requires DistinctKeys(rows) && row.key !in StockMap(rows)
    ensures DistinctKeys(rows + [row])
    ensures StockMap(rows + [row]) == StockMap(rows)[row.key := row.quantity]
  {
    assert (rows + [row])[..|rows|] == rows;
  }

  /** One more book-author record: its join row, if it resolves to one the tracker does not hold, is added. */
  lemma AuthorLinkStep(seeds: seq<SeedBookAuthor>, i: int, books: map<string, Id>, authors: map<string, Id>, links: set<BookAuthor>)
    requires 0 <= i < |seeds|
    requires NoDuplicates(ResolvedAuthorLinks(seeds[..i], books, authors))
    requires links == RowSet(ResolvedAuthorLinks(seeds[..i], books, authors))
    requires seeds[i].bookId in books && seeds[i].authorId in authors ==>
      BookAuthor(books[seeds[i].bookId], authors[seeds[i].authorId]) !in links
    ensures NoDuplicates(ResolvedAuthorLinks(seeds[..i + 1], books, authors))
    ensures (if seeds[i].bookId in books && seeds[i].authorId in authors
             then links + {BookAuthor(books[seeds[i].bookId], authors[seeds[i].authorId])} else links)
      == RowSet(ResolvedAuthorLinks(seeds[..i + 1], books, authors))
  {
    assert seeds[..i + 1][..i] == seeds[..i];
  }

  /** One more store-book record: its stock row, if it resolves to a key the tracker does not hold, is added. */
  lemma StockStep(seeds: seq<SeedStoreBook>, i: int, stores: map<string, Id>, books: map<string, Id>)
    requires 0 <= i < |seeds|
    requires DistinctKeys(ResolvedStock(seeds[..i], stores, books))
    requires seeds[i].storeId in stores && seeds[i].bookId in books ==>
      StoreBookKey(stores[seeds[i].storeId], books[seeds[i].bookId]) !in StockMap(ResolvedStock(seeds[..i], stores, books))
    ensures DistinctKeys(ResolvedStock(seeds[..i + 1], stores, books))
    ensures StockMap(ResolvedStock(seeds[..i + 1], stores, books))
      == if seeds[i].storeId in stores && seeds[i].bookId in books
         then StockMap(ResolvedStock(seeds[..i], stores, books))[StoreBookKey(stores[seeds[i].storeId], books[seeds[i].bookId]) := seeds[i].quantity]
         else StockMap(ResolvedStock(seeds[..i], stores, books))
  {
    assert seeds[..i + 1][..i] == seeds[..i];
    if seeds[i].storeId in stores && seeds[i].bookId in books {
      StockSnoc(ResolvedStock(seeds[..i], stores, books), StockRow(StoreBookKey(stores[seeds[i].storeId], books[seeds[i].bookId]), seeds[i].quantity));
    }
  }

  /** The keys an import hands out stay below the next fresh key. */
  lemma EntitiesBelow(t: Tables, data: SeedData, base: nat)
    requires KeysBelow(t, base)
    ensures KeysBelow(WithSeedEntities(t, data, base), BookBase(data, base) + |data.books|)
  {
    NumberedKeys(data.authors, base, AuthorOf);
    NumberedKeys(data.stores, StoreBase(data, base), StoreOf);
    NumberedKeys(data.books, BookBase(data, base), BookOf);
  }

  /** The second save of an import whose entities were saved satisfies every constraint. */
  lemma LinkedConstraints(t: Tables, data: SeedData, base: nat, now: Timestamp)
    requires ForeignKeys(t)
    requires Constraints(StampTables(t, WithSeedEntities(t, data, base), now))
    ensures Constraints(SeededTables(t, data, base, now))
  {
    var e := WithSeedEntities(t, data, base);
    var saved := StampTables(t, e, now);
    var r := SeededTables(t, data, base, now);
    ResolvedRowsExist(t, data, base);
    assert r.authors == saved.authors && r.books == saved.books && r.stores == saved.stores;
    forall l | l in r.bookAuthors
      ensures l.bookId in r.books && l.authorId in r.authors
    {
      if l !in saved.bookAuthors {
        assert l in SeedLinks(data, base);
      }
    }
    forall k | k in r.storeBooks
      ensures k.storeId in r.stores && k.bookId in r.books
    {
      if k !in saved.storeBooks {
        var stock := SeedStock(data, base);
        var i :| 0 <= i < |stock| && stock[i].key == k;
        assert stock[i] in stock;
      }
    }
  }
}
