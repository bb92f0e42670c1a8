/**
 * The shared in-memory cache the services read through and evict
 * (`IMemoryCache`), with the keys the services build.
 */
module Caching {
  import opened Results
  import opened Entities

  /**
   * The cache keys: "book_details_{id}", "authors_all", "stores_all",
   * "store_details_{id}" and "store_books_{id}". Distinct keys here are
   * distinct strings there, since the prefixes differ and a Guid's text
   * determines the Guid.
   */
  datatype CacheKey =
    | BookDetails(bookId: Id)
    | AuthorsAll
    | StoresAll
    | StoreDetails(storeId: Id)
    | StoreBooks(storeId: Id)

  /** A cached object, tagged with its runtime type. */
  datatype CacheValue =
    | BookDetailsValue(details: BookDetailsDto)
    | AuthorListValue(authors: seq<AuthorDto>)
    | StoreListValue(stores: seq<StoreDto>)
    | StoreDetailsValue(storeDetails: StoreDetailsDto)
    | BookListValue(books: set<BookDto>)

  // `TryGetValue<T>`: a hit only when the stored object has the requested type.

  function AsBookDetails(v: Option<CacheValue>): (r: Option<BookDetailsDto>)
    ensures r.Some? <==> v.Some? && v.value.BookDetailsValue?
  {
    if v.Some? && v.value.BookDetailsValue? then Some(v.value.details) else None
  }

  function AsAuthorList(v: Option<CacheValue>): (r: Option<seq<AuthorDto>>)
    ensures r.Some? <==> v.Some? && v.value.AuthorListValue?
  {
    if v.Some? && v.value.AuthorListValue? then Some(v.value.authors) else None
  }

  function AsStoreList(v: Option<CacheValue>): (r: Option<seq<StoreDto>>)
    ensures r.Some? <==> v.Some? && v.value.StoreListValue?
  {
    if v.Some? && v.value.StoreListValue? then Some(v.value.stores) else None
  }

  function AsStoreDetails(v: Option<CacheValue>): (r: Option<StoreDetailsDto>)
    ensures r.Some? <==> v.Some? && v.value.StoreDetailsValue?
  {
    if v.Some? && v.value.StoreDetailsValue? then Some(v.value.storeDetails) else None
  }

  function AsBookList(v: Option<CacheValue>): (r: Option<set<BookDto>>)
    ensures r.Some? <==> v.Some? && v.value.BookListValue?
  {
    if v.Some? && v.value.BookListValue? then Some(v.value.books) else None
  }

  /** The typed reads give back what was stored under the matching type. */
  lemma TypedReadsInvertTags(d: BookDetailsDto, a: seq<AuthorDto>, s: seq<StoreDto>, sd: StoreDetailsDto, b: set<BookDto>)
    ensures AsBookDetails(Some(BookDetailsValue(d))) == Some(d)
    ensures AsAuthorList(Some(AuthorListValue(a))) == Some(a)
    ensures AsStoreList(Some(StoreListValue(s))) == Some(s)
    ensures AsStoreDetails(Some(StoreDetailsValue(sd))) == Some(sd)
    ensures AsBookList(Some(BookListValue(b))) == Some(b)
    ensures AsBookDetails(Some(BookListValue(b))).None?
  {
  }

  class MemoryCache {
    var entries: map<CacheKey, CacheValue>

    constructor()
      ensures entries == map[]
    {
      entries := map[];
    }

    function Get(key: CacheKey): (v: Option<CacheValue>)
      reads this
      ensures v.Some? <==> key in entries
      ensures v.Some? ==> v.value == entries[key]
    {
      if key in entries then Some(entries[key]) else None
    }

    /** `Set(key, value, ttl)`: stores or replaces the entry; expiry is not modelled. */
    method Set(key: CacheKey, value: CacheValue)
      modifies this
      ensures entries == old(entries)[key := value]
    {
      entries := entries[key := value];
    }

    /** `Remove(key)`: drops the entry if there is one. */
    method Remove(key: CacheKey)
      modifies this
      ensures entries == old(entries) - {key}
    {
      entries := entries - {key};
    }
  }
}
