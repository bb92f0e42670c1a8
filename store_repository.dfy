/**
 * The store queries (src/DataAccess/BookStore.DataAccess/Repositories/StoreRepository.cs).
 */
module StoreRepository {
  import opened Results
  import opened Entities
  import opened Sequences
  import opened Persistence
  import Text

  /** `OrderBy(s => s.Name)`, ordinal comparison. */
  predicate NameOrder(a: Keyed<Store>, b: Keyed<Store>)
  {
    Text.StrLe(a.entity.name, b.entity.name)
  }

  lemma NameOrderTotal()
    ensures Total(NameOrder)
  {
    forall a: Keyed<Store>, b: Keyed<Store>
      ensures NameOrder(a, b) || NameOrder(b, a)
    {
      Text.StrLeTotal(a.entity.name, b.entity.name);
    }
  }

  /** `GetAllAsync`: every store once, ordered by name. */
  function GetAll(rows: seq<Keyed<Store>>): (r: seq<Keyed<Store>>)
    ensures multiset(r) == multiset(rows)
    ensures Sorted(r, NameOrder)
  {
    NameOrderTotal();
    SortBySorted(rows, NameOrder);
    SortBy(rows, NameOrder)
  }

  /**
   * A store loaded with its `StoreBooks` links and each link's book:
   * `quantities` maps each linked book's key to the link's quantity, and
   * `books` holds the linked books themselves.
   */
  datatype StoreWithBooks = StoreWithBooks(id: Id, store: Store, quantities: map<Id, int>, books: map<Id, Book>)

  /** `GetWithBooksAsync`: the store with that key and its links, or nothing. */
  function GetWithBooks(t: Tables, id: Id): (r: Option<StoreWithBooks>)
    ensures r.None? <==> id !in t.stores
    ensures r.Some? ==> r.value.id == id && r.value.store == t.stores[id]
    ensures r.Some? ==> forall b :: b in r.value.quantities <==> StoreBookKey(id, b) in t.storeBooks
    ensures r.Some? ==> forall b :: b in r.value.quantities ==> r.value.quantities[b] == t.storeBooks[StoreBookKey(id, b)]
    ensures r.Some? ==> forall b :: b in r.value.books <==> StoreBookKey(id, b) in t.storeBooks && b in t.books
    ensures r.Some? ==> forall b :: b in r.value.books ==> r.value.books[b] == t.books[b]
  {
    if id !in t.stores then None
    else
      var quantities := map k | k in t.storeBooks && k.storeId == id :: k.bookId := t.storeBooks[k];
      var books := map k | k in t.storeBooks && k.storeId == id && k.bookId in t.books :: k.bookId := t.books[k.bookId];
      assert forall b :: b in quantities ==> StoreBookKey(id, b) in t.storeBooks;
      assert forall b :: StoreBookKey(id, b) in t.storeBooks ==> b in quantities;
      Some(StoreWithBooks(id, t.stores[id], quantities, books))
  }
}
