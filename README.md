# Bookstore catalog — a Dafny model

This project models the core of a bookstore catalog service: books, authors and
stores, the links between them (book–author links and store–book stock rows
with a quantity), and the operations the business services offer on them.

- **Persistence** (`db_context.dfy`, `unit_of_work.dfy`). The database is an
  abstract store: maps from id to `Author`, `Book` and `Store`, a set of
  `BookAuthor` links and a map from `(storeId, bookId)` to a quantity.
  - Saving checks the database constraints: the unique ISBN index, the unique
    (first name, last name) index and the foreign keys. A save that breaks one
    throws a `DbUpdateException` and changes nothing.
  - A save that succeeds stamps creation and update times.
  - The audit records a save writes are modelled separately, as a pure mapping
    over change-tracker entries.
  - The unit of work wraps an action in a transaction. It commits when the
    action and the commit both succeed. Otherwise it rolls back to the snapshot
    taken at the start and re-throws.
- **Repositories** (`author_repository.dfy`, `store_repository.dfy`,
  `book_repository.dfy`). These are pure queries:
  - the duplicate-name test;
  - the orderings by name;
  - lookups by a list of ids;
  - the store with its stock;
  - the book with its authors and stores;
  - the paged book query, which filters, counts, sorts, skips and takes.
- **Services** (`author_service.dfy`, `store_service.dfy`, `book_service.dfy`).
  These are classes over the database context, the unit of work and the memory
  cache (`memory_cache.dfy`).
  - Each operation states its error cases, its new database state and its new
    cache contents.
  - `views.dfy` defines the catalog a reader can observe (`Catalog`) and when a
    cached entry shows it correctly (`Fresh`).
  - Every service operation proves which cache keys it leaves correct and which
    it may leave stale (`CoherentExcept`).
- **Seeding** (`seed_repository.dfy`, `seed_service.dfy`). The one-off import of
  `Seed/seed-data.json` runs inside one transaction with two saves:
  - the authors, stores and books are added under fresh ids and saved;
  - the links whose local ids resolve are added next and saved;
  - the service guards against seeding twice and maps each exception to a
    failed result.
- **Support modules.** `results.dfy` holds `Result`, `PagedResult` and the
  pagination offset. `text.dfy` holds whitespace, trimming, lower-casing,
  joining, splitting and ordinal string order. `sequences.dfy` holds the LINQ
  operators used (`Distinct`, `Where`, `Skip`, `Take` and an insertion sort) and an
  enumeration of a table in an unspecified order.

Conventions:
- The clock is a `now: Timestamp` parameter.
- Database-generated ids come from a counter in the context, which stays
  above every stored key.
- The SQL `LIKE` match of the title filter is a parameter `like`.
- What the seed file holds, or that it is missing or malformed, is a
  `SeedSource` parameter.

Where the code and the written description of the system differ, the model
follows the code:
- A store's book list (`GetBooksForStore`, and the books inside store details)
  carries `BookDto`s without the stocked quantity.
- The cached views are evicted only per entity, so the cross-entity views can
  go stale. Assigning stock to a store leaves that book's cached details as
  they were, and retitling a book leaves the cached book lists of the stores
  that stock it. `Views.NewStockStalesBookDetails` and
  `Views.RetitleStalesStoreBooks` show both. Each operation's coherence
  postcondition names the keys it may leave stale.
- Seeding adds the link rows through the change tracker. Two seed links that
  resolve to the same book–author pair, or to the same store–book pair, make
  the tracker throw `InvalidOperationException` before the second save, so the
  whole import rolls back.

## Model

| member | source | states |
|---|---|---|
| Results.Skip | src/Utilities/BookStore.Utilities/Result.cs:21-24 | Page 1 skips nothing. The offset is non-negative whenever the page is at least 1 and the page size non-negative. |
| Results.SkipNextPage | src/Utilities/BookStore.Utilities/Result.cs:23 | Each next page starts exactly one page size further on, so consecutive pages tile the list. |
| Results.SkipAsWrittenAgrees | src/Utilities/BookStore.Utilities/Result.cs:23 | The 32-bit computation equals the mathematical offset whenever that offset fits in an `int`. |
| Results.SkipAsWrittenOverflows | src/Utilities/BookStore.Utilities/Result.cs:23 | Page 107374184 with size 20 should skip 2147483660 rows; the 32-bit product wraps to -2147483636. |
| Results.Wrap32 | src/Utilities/BookStore.Utilities/Result.cs:23 | Unchecked `int` arithmetic: the result is a 32-bit value congruent to the input modulo 2^32, and equal to it when it fits. |
| Text.TrimIsInfix | src/DataAccess/BookStore.DataAccess/Repositories/BookRepository.cs:48 | `Trim` yields a contiguous piece of the input that neither starts nor ends with white space. |
| Text.TrimNonBlank | src/DataAccess/BookStore.DataAccess/Repositories/BookRepository.cs:46-48 | A name that is not null or white space stays non-empty after trimming, so the author filter always has a non-empty needle. |
| Text.ToLowerAscii | src/DataAccess/BookStore.DataAccess/Repositories/BookRepository.cs:59 | Lower-casing keeps the length and maps exactly the letters A–Z to a–z. |
| Text.StrLeTotal | src/DataAccess/BookStore.DataAccess/Repositories/AuthorRepository.cs:21-22 | Ordinal string order is total, so the name orderings compare every pair. |
| Text.StrLeAntisymmetric | src/DataAccess/BookStore.DataAccess/Repositories/AuthorRepository.cs:21-22 | Two strings that each order before the other are equal. |
| Text.StrLeTransitive | src/DataAccess/BookStore.DataAccess/Repositories/AuthorRepository.cs:21-22 | Ordinal string order is transitive. |
| Text.SplitJoin | src/DataAccess/BookStore.DataAccess/BookStoreDbContext.cs:94 | Joining parts that do not contain the separator, then splitting on it, gives back the same parts. |
| Sequences.Distinct | src/DataAccess/BookStore.DataAccess/Repositories/AuthorRepository.cs:27 | Keeps every element of the input exactly once and adds none; empty exactly when the input is. |
| Sequences.DistinctOfDistinct | src/DataAccess/BookStore.DataAccess/Repositories/AuthorRepository.cs:27 | `Distinct` leaves a duplicate-free list unchanged. |
| Sequences.Where | src/DataAccess/BookStore.DataAccess/Repositories/BookRepository.cs:41-52 | Keeps exactly the elements that satisfy the predicate and keeps a duplicate-free input duplicate-free. |
| Sequences.Drop | src/DataAccess/BookStore.DataAccess/Repositories/BookRepository.cs:69 | LINQ `Skip`: a non-positive count skips nothing, a count past the end leaves nothing, otherwise the suffix. |
| Sequences.Limit | src/DataAccess/BookStore.DataAccess/Repositories/BookRepository.cs:70 | SQLite `LIMIT`: a negative count takes everything, otherwise the prefix of at most that length. |
| Sequences.SortBy | src/DataAccess/BookStore.DataAccess/Repositories/BookRepository.cs:59-64 | Sorting returns a permutation of its input. |
| Sequences.SortBySorted | src/DataAccess/BookStore.DataAccess/Repositories/BookRepository.cs:59-64 | Under a total order the sorted list is ordered. |
| Sequences.Enumerate | src/DataAccess/BookStore.DataAccess/Repositories/GenericRepository.cs:41-56 | A table scan yields every key of the table exactly once, in an unspecified order. |
| Persistence.Scan | src/DataAccess/BookStore.DataAccess/Repositories/GenericRepository.cs:41-56 | A scan yields exactly the stored rows, each id once. |
| Persistence.RowsWithIds | src/DataAccess/BookStore.DataAccess/Repositories/AuthorRepository.cs:25-36 | `GetByIdsAsync`, shared by authors and stores: an empty id list gives an empty result; otherwise exactly the rows whose id is listed, each once, whatever duplicates the list holds. |
| Persistence.WhereDistinctIds | src/DataAccess/BookStore.DataAccess/Repositories/StoreRepository.cs:44-46 | Filtering rows keeps their ids distinct. |
| Persistence.StampTables | src/DataAccess/BookStore.DataAccess/BookStoreDbContext.cs:19-31 | Stamping changes no key set and no link row. |
| Persistence.StampTablesBooks | src/DataAccess/BookStore.DataAccess/BookStoreDbContext.cs:21-31 | An added book gets its creation time, a modified one its update time, an unchanged one keeps all of its fields; the data fields are never touched. |
| Persistence.StampTablesAuthors | src/DataAccess/BookStore.DataAccess/BookStoreDbContext.cs:21-31 | The same for authors: an added author gets its creation time, and unchanged authors are left as they were. |
| Persistence.StampTablesStores | src/DataAccess/BookStore.DataAccess/BookStoreDbContext.cs:21-31 | The same for stores. |
| Persistence.StampUnchangedEntities | src/DataAccess/BookStore.DataAccess/BookStoreDbContext.cs:21-31 | A save that changes only link rows stamps nothing. |
| Persistence.StampKeepsConstraints | src/DataAccess/BookStore.DataAccess/BookStoreDbContext.cs:45-80 | Stamping neither breaks nor repairs a unique index or a foreign key, and keeps every key below the same bound. |
| Persistence.ParseStateName | src/DataAccess/BookStore.DataAccess/BookStoreDbContext.cs:86 | Each entity state's name identifies the state. |
| Persistence.AuditLogIdentifiesEntry | src/DataAccess/BookStore.DataAccess/BookStoreDbContext.cs:82-109 | An audit record names the entry's entity type and id, carries the save time, and its action names the entry's state. |
| Persistence.AuditLogAddedOrDeleted | src/DataAccess/BookStore.DataAccess/BookStoreDbContext.cs:96-99 | An added or deleted entry records `State:` followed by its action. |
| Persistence.AuditLogModified | src/DataAccess/BookStore.DataAccess/BookStoreDbContext.cs:89-95 | The changes of a modified entry split on `;` into exactly one `Name:original -> current` piece per modified property, in order. |
| Persistence.ModifiedChangesPieces | src/DataAccess/BookStore.DataAccess/BookStoreDbContext.cs:89-94 | With at least one modified property there is at least one piece, and no piece contains the separator. |
| Persistence.StampEntryProperties | src/DataAccess/BookStore.DataAccess/BookStoreDbContext.cs:21-31 | Stamping an entry changes only its times and the property entry of the stamped column, keeps every other property entry, is idempotent, and does not change whether the entry is audited. |
| Persistence.ModifiedChangesHas | src/DataAccess/BookStore.DataAccess/BookStoreDbContext.cs:91-93 | Every modified property's "Name:original -> current" text is among the listed changes. |
| Persistence.StampedUpdateIsAudited | src/DataAccess/BookStore.DataAccess/BookStoreDbContext.cs:27-34 | After the stamp, a modified entity's `UpdatedAtUtc` entry carries the new time and, when it changed, "UpdatedAtUtc:<original> -> <now>" is among the audited changes. |
| Persistence.RetitleAuditText | src/DataAccess/BookStore.DataAccess/BookStoreDbContext.cs:27-34 | A book edited only in its title is audited as "Title:a -> b;UpdatedAtUtc: -> 5": the title change and then the stamped update time. |
| Persistence.AuditsOfOnePerEntry | src/DataAccess/BookStore.DataAccess/BookStoreDbContext.cs:34-40 | A save writes one audit record per added, modified or deleted base entity and none for anything else. |
| Persistence.AuditsOfSnoc | src/DataAccess/BookStore.DataAccess/BookStoreDbContext.cs:34-40 | Audit records follow the order of the tracked entries. |
| Persistence.BookStoreDbContext.NewId | src/DataAccess/BookStore.DataAccess/Repositories/GenericRepository.cs:17-20 | A new entity receives an id that no stored author, book or store has. |
| Persistence.BookStoreDbContext.SaveChanges | src/DataAccess/BookStore.DataAccess/BookStoreDbContext.cs:19-43 | A save succeeds exactly when the pending state meets every constraint; then the tables are the stamped pending state; otherwise it throws the update exception and nothing changes. |
| Persistence.BookStoreDbContext.StampAndAudit | src/DataAccess/BookStore.DataAccess/BookStoreDbContext.cs:19-40 | The loop over the tracked entries stamps each entry in place, including the stamped column's property entry that change detection then reports, and appends exactly the audit records of the audited entries, in entry order. |
| Transactions.CompletionAllOrNothing | src/DataAccess/BookStore.DataAccess/UnitOfWork.cs:18-31 | A transaction throws exactly when the action or the commit does. When nothing is thrown the action's state stands; otherwise the snapshot is restored, and an action's own exception is re-thrown unchanged. |
| Transactions.UnitOfWork.SaveChanges | src/DataAccess/BookStore.DataAccess/UnitOfWork.cs:15-16 | Delegates to the context's save with the same contract. |
| Transactions.UnitOfWork.BeginTransaction | src/DataAccess/BookStore.DataAccess/UnitOfWork.cs:20 | The transaction's snapshot is the state at the start. |
| Transactions.UnitOfWork.CompleteTransaction | src/DataAccess/BookStore.DataAccess/UnitOfWork.cs:21-30 | Commits or rolls back to the snapshot, as the completion rule says. |
| Caching.TypedReadsInvertTags | src/BusinessLogic/BookStore.BusinessLogic/Services/BookService.cs:245 | A typed cache read returns the value stored under the matching type. The typed read functions yield a value exactly when the entry holds that type. |
| Caching.MemoryCache.Get | src/BusinessLogic/BookStore.BusinessLogic/Services/AuthorService.cs:67 | A read hits exactly when the key is present and returns its entry. |
| Caching.MemoryCache.Set | src/BusinessLogic/BookStore.BusinessLogic/Services/AuthorService.cs:76 | Stores the value under the key and changes no other entry. |
| Caching.MemoryCache.Remove | src/BusinessLogic/BookStore.BusinessLogic/Services/AuthorService.cs:56 | Removes the key and changes no other entry. |
| AuthorRepository.ExistsByNameDecidesUniqueness | src/DataAccess/BookStore.DataAccess/Repositories/AuthorRepository.cs:16-17 | Adding an author keeps the unique-name index satisfied exactly when no author already has both names. |
| AuthorRepository.NameOrderTotal | src/DataAccess/BookStore.DataAccess/Repositories/AuthorRepository.cs:21-22 | Ordering by last name, then first name, is total. |
| AuthorRepository.GetAll | src/DataAccess/BookStore.DataAccess/Repositories/AuthorRepository.cs:19-23 | All authors, each once, sorted by last name, then first name. |
| StoreRepository.NameOrderTotal | src/DataAccess/BookStore.DataAccess/Repositories/StoreRepository.cs:16-19 | Ordering by name is total. |
| StoreRepository.GetAll | src/DataAccess/BookStore.DataAccess/Repositories/StoreRepository.cs:16-19 | All stores, each once, sorted by name. |
| StoreRepository.GetWithBooks | src/DataAccess/BookStore.DataAccess/Repositories/StoreRepository.cs:21-34 | Absent exactly when there is no such store. Otherwise it returns the store, and exactly its stock rows with their quantities and books. |
| BookRepository.GetByIsbn | src/DataAccess/BookStore.DataAccess/Repositories/BookRepository.cs:17-18 | Returns a stored book with that ISBN, and nothing exactly when no book has it. |
| BookRepository.GetDetails | src/DataAccess/BookStore.DataAccess/Repositories/BookRepository.cs:20-26 | Absent exactly when there is no such book. Otherwise it returns the book with exactly its linked authors and stocking stores. |
| BookRepository.GetWithAuthors | src/DataAccess/BookStore.DataAccess/Repositories/BookRepository.cs:28-32 | The book with exactly its linked authors and no stores loaded. |
| BookRepository.AuthorsOfBook | src/DataAccess/BookStore.DataAccess/Repositories/BookRepository.cs:37-38 | The authors included with a book are exactly those linked to it. |
| BookRepository.ScanWithAuthors | src/DataAccess/BookStore.DataAccess/Repositories/BookRepository.cs:36-39 | The query source lists every book once with its authors. |
| BookRepository.Filtered | src/DataAccess/BookStore.DataAccess/Repositories/BookRepository.cs:41-52 | Keeps exactly the books whose title matches a non-blank title filter, and that have a linked author whose "First Last" contains a non-blank, trimmed author filter. |
| BookRepository.SortKeyOfBlank | src/DataAccess/BookStore.DataAccess/Repositories/BookRepository.cs:56 | A blank sort key sorts by title. |
| BookRepository.SortKeyOfIsbn | src/DataAccess/BookStore.DataAccess/Repositories/BookRepository.cs:59-61 | "ISBN", in any case, sorts by ISBN. |
| BookRepository.SortKeyOfCreatedAt | src/DataAccess/BookStore.DataAccess/Repositories/BookRepository.cs:59-62 | Every name that lower-cases to "createdat" ("CreatedAt" in any mix of cases) sorts by creation time. |
| BookRepository.SortKeyOfOther | src/DataAccess/BookStore.DataAccess/Repositories/BookRepository.cs:59-63 | Any other non-blank key falls back to title. |
| BookRepository.OrderTotal | src/DataAccess/BookStore.DataAccess/Repositories/BookRepository.cs:59-64 | Each of the six orderings (three keys, ascending or descending) is total. |
| BookRepository.Ordered | src/DataAccess/BookStore.DataAccess/Repositories/BookRepository.cs:56-64 | The filtered books, permuted into the requested order. |
| BookRepository.Page | src/DataAccess/BookStore.DataAccess/Repositories/BookRepository.cs:68-71 | A page holds at most page-size items when the size is non-negative, never more than the list, all taken from the list. |
| BookRepository.GetPaged | src/DataAccess/BookStore.DataAccess/Repositories/BookRepository.cs:34-80 | Echoes page and page size. The total is the filtered count. There are at most total items, and at most page-size items when the size is non-negative, each a matching book. |
| BookRepository.GetPagedTotalCounts | src/DataAccess/BookStore.DataAccess/Repositories/BookRepository.cs:54 | The total equals the number of stored books that match, whatever the scan order. |
| BookRepository.GetPagedTotalIgnoresPaging | src/DataAccess/BookStore.DataAccess/Repositories/BookRepository.cs:54 | The total does not depend on page, page size or sort. |
| BookRepository.GetPagedWindow | src/DataAccess/BookStore.DataAccess/Repositories/BookRepository.cs:66-71 | The items are the sorted filtered list from `(page-1)*pageSize` on, at most page-size of them. |
| BookRepository.GetPagedSorted | src/DataAccess/BookStore.DataAccess/Repositories/BookRepository.cs:56-71 | The items of a page are in the requested order, for every page number and page size, including a page below 1 and a negative size. |
| BookRepository.PageSlice | src/DataAccess/BookStore.DataAccess/Repositories/BookRepository.cs:68-70 | With a non-negative offset and size, `Skip(offset).Take(size)` is the run of at most size rows starting at the offset, and empty past the end. |
| BookRepository.PageSorted | src/DataAccess/BookStore.DataAccess/Repositories/BookRepository.cs:68-70 | A page cut from a list in the requested order is itself in that order, for any offset and size. |
| BookRepository.GetPagedDistinct | src/DataAccess/BookStore.DataAccess/Repositories/BookRepository.cs:34-80 | No book appears twice on a page. |
| BookRepository.GetPagedPosition | src/DataAccess/BookStore.DataAccess/Repositories/BookRepository.cs:66-71 | Within one ordered list, the i-th book is item `i mod pageSize` of page `i div pageSize + 1`, so the pages of that list lose and repeat nothing. |
| BookRepository.OverflowingOffsetReturnsFirstPage | src/DataAccess/BookStore.DataAccess/Repositories/BookRepository.cs:66-71 | With the 32-bit offset, page 107374184 of size 20 returns the first page. |
| Views.CatalogOf | src/Models/BookStore.Models/Dtos.cs:3-19 | The observable catalog: exactly the DTO of every stored author, book and store, the links, and which books each store stocks. |
| Views.CatalogOfStamped | src/DataAccess/BookStore.DataAccess/BookStoreDbContext.cs:21-31 | Stamping times changes nothing a reader can see. |
| Views.CoherenceCarries | src/BusinessLogic/BookStore.BusinessLogic/Services/BookService.cs:243-273 | If the catalog changes only in views whose keys are listed, every other cached entry stays correct. |
| Views.NewStockStalesBookDetails | src/BusinessLogic/BookStore.BusinessLogic/Services/StoreService.cs:146-165 | After a new stock row, a book's previously correct cached details are no longer correct. The assignment does not evict them. |
| Views.RetitleStalesStoreBooks | src/BusinessLogic/BookStore.BusinessLogic/Services/BookService.cs:89-110 | After a retitle, a stocking store's previously correct cached book list is no longer correct. The update does not evict it. |
| Views.StockingFrame | src/BusinessLogic/BookStore.BusinessLogic/Services/StoreService.cs:146-165 | A stock change alters only the book's details and the store's details and book list. |
| Views.AuthoringFrame | src/BusinessLogic/BookStore.BusinessLogic/Services/BookService.cs:192-205 | An author-link change alters only that book's details view. |
| Views.BookRemovedFrame | src/BusinessLogic/BookStore.BusinessLogic/Services/BookService.cs:128-136 | Deleting a book alters only its details and the views of the stores that stocked it. |
| AuthorService.AuthorListFresh | src/BusinessLogic/BookStore.BusinessLogic/Services/AuthorService.cs:67-76 | The list loaded on a miss is exactly the stored authors, once each, in name order. |
| AuthorService.NewAuthorCoherence | src/BusinessLogic/BookStore.BusinessLogic/Services/AuthorService.cs:43-56 | Adding an author and evicting the author list keeps every other cached entry correct. |
| AuthorService.AuthorService.Create | src/BusinessLogic/BookStore.BusinessLogic/Services/AuthorService.cs:31-61 | A taken name pair fails with the duplicate message and changes nothing. Otherwise exactly one author is added under a fresh id with the request's names and the creation time. The returned DTO carries those names, only the author list is evicted, and the cache stays coherent. |
| AuthorService.AuthorService.GetAll | src/BusinessLogic/BookStore.BusinessLogic/Services/AuthorService.cs:63-80 | A hit returns the cached list with the cache unchanged. With no entry, or an entry of another type, it returns exactly the stored authors in name order and caches that list under the key. A correct entry also yields the right list. |
| AuthorService.AuthorService.GetById | src/BusinessLogic/BookStore.BusinessLogic/Services/AuthorService.cs:82-94 | Always succeeds, with no value exactly when the author is missing, else with that author's DTO. |
| StoreService.LoadedStoreIsView | src/BusinessLogic/BookStore.BusinessLogic/Services/StoreService.cs:199-217 | The details built from the loaded store are the catalog's view of that store and its distinct stocked books. |
| StoreService.StoreListFresh | src/BusinessLogic/BookStore.BusinessLogic/Services/StoreService.cs:63-72 | The list loaded on a miss is exactly the stored stores, once each, in name order. |
| StoreService.StockConstraints | src/BusinessLogic/BookStore.BusinessLogic/Services/StoreService.cs:146-161 | For an existing store, writing a stock row satisfies the constraints exactly when the book exists. |
| StoreService.StockCoherence | src/BusinessLogic/BookStore.BusinessLogic/Services/StoreService.cs:146-165 | After a stock change and the store's two evictions, everything cached stays correct except, when the row is new or removed, the book's details. |
| StoreService.StoreService.Create | src/BusinessLogic/BookStore.BusinessLogic/Services/StoreService.cs:33-57 | Adds exactly one store under a fresh id with the request's name, location and creation time. Evicts the store list and that id's two store keys. |
| StoreService.StoreService.GetAll | src/BusinessLogic/BookStore.BusinessLogic/Services/StoreService.cs:59-76 | A hit returns the cached list with the cache unchanged. With no entry, or an entry of another type, it returns exactly the stored stores in name order and caches that list under the key. A correct entry also yields the right list. |
| StoreService.StoreService.GetById | src/BusinessLogic/BookStore.BusinessLogic/Services/StoreService.cs:78-104 | A hit returns the cached details. Otherwise a missing store gives success with no value and caches nothing; an existing store gives its current details, which are cached under the key. |
| StoreService.StoreService.GetBooksForStore | src/BusinessLogic/BookStore.BusinessLogic/Services/StoreService.cs:106-131 | A hit returns the cached list. Otherwise it fails with "Store not found." exactly when the store is missing, caching nothing; an existing store gives the books it stocks, which are cached under the key. |
| StoreService.StoreService.AssignBookToStore | src/BusinessLogic/BookStore.BusinessLogic/Services/StoreService.cs:133-168 | A missing store gives "Store not found." and no change, and a missing book makes the save throw with no change. Otherwise the row's quantity is set, by insert or overwrite, and nothing else changes. The store's two keys are evicted and fresh details are returned. |
| StoreService.StoreService.RemoveBookFromStore | src/BusinessLogic/BookStore.BusinessLogic/Services/StoreService.cs:170-197 | A missing store gives "Store not found.", a missing row gives "Book is not assigned to this store.", each with no change. Otherwise exactly that row is removed, the store's two keys are evicted and fresh details are returned. |
| StoreService.StoreService.GetStoreDetailsInternal | src/BusinessLogic/BookStore.BusinessLogic/Services/StoreService.cs:199-217 | Fails with "Store not found." exactly when the store is missing, otherwise returns the store's current details. |
| BookService.Requested | src/BusinessLogic/BookStore.BusinessLogic/Services/BookService.cs:275-298 | The ids to link are exactly the listed ids that exist; none for a null list. |
| BookService.Replacing | src/BusinessLogic/BookStore.BusinessLogic/Services/BookService.cs:92-102 | A null list keeps the links; any other list, even an empty one, replaces them with its existing ids. |
| BookService.ZeroStock | src/BusinessLogic/BookStore.BusinessLogic/Services/BookService.cs:300-324 | Stock rows attached at creation have quantity 0. |
| BookService.GetByIsbnDecidesTaken | src/BusinessLogic/BookStore.BusinessLogic/Services/BookService.cs:42-48 | The ISBN lookup finds nothing exactly when no stored book has that ISBN. |
| BookService.NewBookConstraints | src/BusinessLogic/BookStore.BusinessLogic/Services/BookService.cs:50-64 | A new book with a free ISBN and links to existing rows keeps every constraint. |
| BookService.UpdateConstraints | src/BusinessLogic/BookStore.BusinessLogic/Services/BookService.cs:89-107 | An update that links only existing rows keeps every constraint. |
| BookService.DeleteConstraints | src/BusinessLogic/BookStore.BusinessLogic/Services/BookService.cs:128-134 | Deleting a book with its link rows, as the cascade does, keeps every constraint. |
| BookService.AttachedAuthorLinks | src/BusinessLogic/BookStore.BusinessLogic/Services/BookService.cs:275-298 | The attach loop adds one link per distinct existing listed author and no other. |
| BookService.AttachedStockKeys | src/BusinessLogic/BookStore.BusinessLogic/Services/BookService.cs:300-324 | The attach loop adds one stock row per distinct existing listed store and no other. |
| BookService.LoadedBookIsView | src/BusinessLogic/BookStore.BusinessLogic/Services/BookService.cs:247-267 | The details built from the loaded book are the catalog's view of that book with its distinct authors and stores. |
| BookService.NewBookCoherence | src/BusinessLogic/BookStore.BusinessLogic/Services/BookService.cs:50-71 | After a new book, only its details and the views of the stores it is stocked in can be stale. |
| BookService.UpdateCoherence | src/BusinessLogic/BookStore.BusinessLogic/Services/BookService.cs:89-112 | After an update, only its details and the views of the stores that stocked it or now stock it can be stale. |
| BookService.DeleteCoherence | src/BusinessLogic/BookStore.BusinessLogic/Services/BookService.cs:128-136 | After a delete, only its details and the views of the stores that stocked it can be stale. |
| BookService.LinkCoherence | src/BusinessLogic/BookStore.BusinessLogic/Services/BookService.cs:192-237 | An author-link change with the book's details evicted keeps every other cached entry correct. |
| BookService.GetBooksItems | src/BusinessLogic/BookStore.BusinessLogic/Services/BookService.cs:154-173 | The DTO page has distinct books, each a stored book that matches, in the requested order for every page number and size. |
| BookService.ToDtoPage | src/BusinessLogic/BookStore.BusinessLogic/Services/BookService.cs:160-171 | The DTO page keeps page, size, total and the items' order. |
| BookService.BookService.AttachAuthors | src/BusinessLogic/BookStore.BusinessLogic/Services/BookService.cs:275-298 | Returns one link per distinct listed author that exists, and none for a null or empty list. |
| BookService.BookService.AttachStores | src/BusinessLogic/BookStore.BusinessLogic/Services/BookService.cs:300-324 | Returns one stock row per distinct listed store that exists, and none for a null or empty list. |
| BookService.BookService.Create | src/BusinessLogic/BookStore.BusinessLogic/Services/BookService.cs:38-75 | A taken ISBN fails with the duplicate message and changes nothing. Otherwise it adds the book under a fresh id with its creation time, links the existing listed authors, and stocks the existing listed stores at quantity 0. It returns and caches the new book's details. |
| BookService.BookService.Update | src/BusinessLogic/BookStore.BusinessLogic/Services/BookService.cs:77-116 | A missing book fails with "Book not found." and changes nothing. Otherwise it overwrites title and description, and stamps the update time when the title or description changes. A null id list keeps links; a non-null one replaces them. It returns and caches the fresh details. |
| BookService.BookService.SaveEdit | src/BusinessLogic/BookStore.BusinessLogic/Services/BookService.cs:89-107 | The edit of an existing book is saved in a transaction: title and description replaced, present id lists replacing links, the update time stamped when the title or description changes, every other row unchanged, the constraints kept. |
| BookService.BookService.ReplaceLinks | src/BusinessLogic/BookStore.BusinessLogic/Services/BookService.cs:92-102 | A present author id list replaces the book's author links by links to the authors found; a present store id list replaces its stock rows by zero-quantity rows of the stores found; an absent list keeps that kind of link. |
| BookService.BookService.Delete | src/BusinessLogic/BookStore.BusinessLogic/Services/BookService.cs:118-139 | A missing book fails with "Book not found." Otherwise the book and its link rows are removed and only its details key is evicted. |
| BookService.BookService.GetById | src/BusinessLogic/BookStore.BusinessLogic/Services/BookService.cs:141-152 | A hit returns the cached details with the cache unchanged. Otherwise it fails with "Book not found." exactly when the book is missing, caching nothing; an existing book gives its current details, which are cached under the key. A success always carries a value. |
| BookService.BookService.GetBooks | src/BusinessLogic/BookStore.BusinessLogic/Services/BookService.cs:154-173 | Echoes page and size. The total counts the matching stored books. The items are distinct matching books, at most page-size of them when the size is non-negative, in the requested order for every page number and size. |
| BookService.BookService.AssignAuthorToBook | src/BusinessLogic/BookStore.BusinessLogic/Services/BookService.cs:175-211 | Missing book or author fails with its message and changes nothing. Otherwise the link set becomes its union with the one link, so a repeat changes nothing; the returned details list the author. |
| BookService.BookService.RemoveAuthorFromBook | src/BusinessLogic/BookStore.BusinessLogic/Services/BookService.cs:213-241 | Missing book, or no link, fails with its message and changes nothing. Otherwise exactly that one link is removed and the returned details no longer list the author. |
| BookService.BookService.GetDetailsByIdInternal | src/BusinessLogic/BookStore.BusinessLogic/Services/BookService.cs:243-273 | A hit returns the cached details and touches nothing. With no entry, or an entry of another type, it fails with "Book not found." for a missing book; otherwise it builds the current details and caches them under the book's key. |
| SeedRepository.SeedRepository.IsSeeded | src/DataAccess/BookStore.DataAccess/Repositories/SeedRepository.cs:20-25 | True exactly when some book, author or store exists. |
| SeedRepository.NumberedKeys | src/DataAccess/BookStore.DataAccess/Repositories/SeedRepository.cs:49-74 | Each seed record adds exactly one entity, under consecutive fresh ids, built from that record. |
| SeedRepository.LocalIdsCover | src/DataAccess/BookStore.DataAccess/Repositories/SeedRepository.cs:50-54 | Every record's local id is mapped to an id added for a record with that local id. |
| SeedRepository.LocalIdsLaterWins | src/DataAccess/BookStore.DataAccess/Repositories/SeedRepository.cs:50-54 | A local id maps to the entity of the last record that uses it. |
| SeedRepository.ResolvedAuthorLinksAre | src/DataAccess/BookStore.DataAccess/Repositories/SeedRepository.cs:79-92 | The book–author links added are exactly the seed links whose book and author local ids both resolve; the rest are skipped. |
| SeedRepository.ResolvedStockAre | src/DataAccess/BookStore.DataAccess/Repositories/SeedRepository.cs:95-109 | The stock rows added are exactly the seed rows whose store and book resolve, each with its seed quantity. |
| SeedRepository.StockMapQuantities | src/DataAccess/BookStore.DataAccess/Repositories/SeedRepository.cs:103-108 | With distinct keys every resolved row is stored with its own quantity. |
| SeedRepository.SeededAuthors | src/DataAccess/BookStore.DataAccess/Repositories/SeedRepository.cs:49-56 | A successful seed keeps every existing author and adds exactly one author per record, with its names and the creation time. |
| SeedRepository.SeededStores | src/DataAccess/BookStore.DataAccess/Repositories/SeedRepository.cs:58-65 | The same for stores, with name and location. |
| SeedRepository.SeededBooks | src/DataAccess/BookStore.DataAccess/Repositories/SeedRepository.cs:67-74 | The same for books, with ISBN, title and description. |
| SeedRepository.SeededLinks | src/DataAccess/BookStore.DataAccess/Repositories/SeedRepository.cs:78-109 | The links afterwards are the old ones plus exactly the resolved seed links, and each resolved stock row holds its seed quantity. |
| SeedRepository.SeededAuthorLinks | src/DataAccess/BookStore.DataAccess/Repositories/SeedRepository.cs:78-92 | A link exists after a successful seed exactly when it existed before or a book-author record resolves both its local ids to it. |
| SeedRepository.SeededStock | src/DataAccess/BookStore.DataAccess/Repositories/SeedRepository.cs:94-109 | Every store-book record whose ids resolve leaves a stock row holding its quantity. |
| SeedRepository.SeedingRejectsDuplicateIsbn | src/DataAccess/BookStore.DataAccess/Repositories/SeedRepository.cs:67-76 | Two seed books with one ISBN, or one that is already stored, make the first save throw the update exception and leave the tables as they were. |
| SeedRepository.SeedingRejectsDuplicateName | src/DataAccess/BookStore.DataAccess/Repositories/SeedRepository.cs:49-76 | The same for two seed authors with one name pair, or one that is already stored. |
| SeedRepository.BrokenIndexFailsSeeding | src/DataAccess/BookStore.DataAccess/Repositories/SeedRepository.cs:76 | When the added entities break the ISBN or author-name index, the first save throws the update exception and the transaction leaves the tables as they were. |
| SeedRepository.SeedingPopulates | src/DataAccess/BookStore.DataAccess/Repositories/SeedRepository.cs:47-112 | A successful seed with at least one record leaves the database seeded. |
| SeedRepository.LinkedConstraints | src/DataAccess/BookStore.DataAccess/Repositories/SeedRepository.cs:78-111 | Once the entities were saved, the resolved links satisfy every constraint, so the second save cannot fail. |
| SeedRepository.SeedRepository.AddAuthors | src/DataAccess/BookStore.DataAccess/Repositories/SeedRepository.cs:49-56 | The loop adds one author per record under consecutive fresh ids and builds the local-id map. |
| SeedRepository.SeedRepository.AddStores | src/DataAccess/BookStore.DataAccess/Repositories/SeedRepository.cs:58-65 | The same for stores. |
| SeedRepository.SeedRepository.AddBooks | src/DataAccess/BookStore.DataAccess/Repositories/SeedRepository.cs:67-74 | The same for books. |
| SeedRepository.SeedRepository.AddEntities | src/DataAccess/BookStore.DataAccess/Repositories/SeedRepository.cs:49-74 | The pending state is the tables plus all seeded entities, with every key below the next id. |
| SeedRepository.TrackBookAuthors | src/DataAccess/BookStore.DataAccess/Repositories/SeedRepository.cs:79-92 | The loop reports a tracking conflict exactly when two resolved links coincide; otherwise it yields exactly the resolved links. |
| SeedRepository.TrackStoreBooks | src/DataAccess/BookStore.DataAccess/Repositories/SeedRepository.cs:95-109 | The loop reports a conflict exactly when two resolved stock rows share a key; otherwise it yields exactly the resolved rows with their quantities. |
| SeedRepository.SeedRepository.SeedFromFile | src/DataAccess/BookStore.DataAccess/Repositories/SeedRepository.cs:27-113 | A missing file throws not-found with the path, and a null document throws invalid-operation, both before any write. Otherwise the transaction applies the seeding outcome, and on any exception the tables are as before. |
| SeedService.CombinePath | src/BusinessLogic/BookStore.BusinessLogic/Services/SeedService.cs:23 | Joining a relative part keeps the first part as a prefix and ends with the second part. |
| SeedService.SeedPathUnderBase | src/BusinessLogic/BookStore.BusinessLogic/Services/SeedService.cs:23 | The file is `Seed/seed-data.json` directly under the base directory, with or without a trailing separator. |
| SeedService.Report | src/BusinessLogic/BookStore.BusinessLogic/Services/SeedService.cs:26-38 | Success ("Database seeded.") exactly when nothing was thrown. A missing file reports its path; any other exception reports "Failed to seed database: " and its message. |
| SeedService.SeedOnceIdempotent | src/BusinessLogic/BookStore.BusinessLogic/Services/SeedService.cs:16-39 | After a successful non-empty seed, every later call reports "Database already seeded." and changes nothing, whatever the file then holds. |
| SeedService.SeededIsPopulated | src/BusinessLogic/BookStore.BusinessLogic/Services/SeedService.cs:18-36 | A successful seed of at least one author, store or book leaves some author, store or book in the database. |
| SeedService.PopulatedIsSkipped | src/BusinessLogic/BookStore.BusinessLogic/Services/SeedService.cs:18-21 | When some author, store or book exists, seeding reports "Database already seeded." and changes nothing, whatever the file holds. |
| SeedService.SeedOnceFailureChangesNothing | src/BusinessLogic/BookStore.BusinessLogic/Services/SeedService.cs:26-38 | A failed seed leaves the database as it was. |
| SeedService.SeedService.Seed | src/BusinessLogic/BookStore.BusinessLogic/Services/SeedService.cs:16-39 | Already seeded: reports so, reads no file and changes nothing. Otherwise it imports the file at the seed path once and reports the outcome. |

## Left out

- Cache expiry: the five-minute lifetime of cache entries needs a clock; the cache is a map with get, set and remove.
- Logging, `async`/`await` and cancellation tokens have no effect on the modelled state and are left out.
- Concurrency: requests are sequential; races between requests on the cache or the database are not modelled.
- The HTTP controllers, middleware, dependency-injection wiring and `Program.cs` are not part of this model.
- `GenericRepository`'s expression-based includes: each repository query is modelled directly on the tables.
- Ids are natural numbers from a counter instead of database-generated GUIDs; only their freshness matters.
- The SQL `LIKE` match of the title filter, with its collation and case rules, is the parameter `like`.
- String comparison for ordering is ordinal; the database collation is not modelled.
- File existence, reading and JSON deserialisation: what the seed file yields is the parameter `SeedSource`; null collections or null fields inside a parsed document are not modelled.
- SeedService.CombinePath, SeedService.SeedPathUnderBase: `Path.Combine` with three parts is modelled as two nested two-part joins on Unix paths; other platforms' separators are not modelled.
- Transactions.UnitOfWork.CompleteTransaction: a failing commit is an input (`commitFailure`); why a commit fails is not modelled, and every caller passes none.
- SeedService.SeedService.Seed: like the source, seeding neither reads nor evicts the cache; the model does not state which cached views (an empty author or store list cached before the import, say) the import leaves stale.
- The `?? "Failed to load ..."` fallback messages after a failed details read cannot be reached: the internal read always carries an error message when it fails.
- DTO collections without an `ORDER BY` (authors and stores in book details, books in store details and store book lists) are sets, since their order is unspecified.
- Persistence.BookStoreDbContext.SaveChanges: the save of the tables and the stamping-and-audit pass over the tracker entries (`StampAndAudit`) are two members; the services' saves work on the tables and do not build tracker entries, so which audit records a service call writes is not stated.
- Persistence.BookStoreDbContext.StampAndAudit: audit records go to an in-memory log; storing them as rows of the `AuditLogs` table is not modelled.
- Text.ToLowerAscii: `ToLowerInvariant` folds every Unicode upper-case letter (U+0130 to 'i', say); the model folds only A–Z and keeps every other character, so sort keys spelled with non-ASCII capitals fall back to the title order.
- Persistence.TimestampText: a `DateTime` interpolated into an audit text uses the culture's date format; the model writes the timestamp as its decimal tick count.
- Persistence.BookStoreDbContext.StampAndAudit: each `DateTime.UtcNow` read is one parameter `now`; the distinct clock reads of the stamping loop and of each audit record are not modelled.
- BookRepository.GetPagedPosition: each page is a query of its own, and the database may order rows that tie on title or creation time differently from one query to the next, so across separate page requests a tied book can be repeated or skipped; the model sorts one scan once. Only the ISBN order, which the unique index makes strict, is free of ties.
- Quantities are unbounded integers; the 32-bit range of `Quantity` is not modelled.
- Persistence.MessageOf: EF Core's identity-map message is kept to its first sentence, which names the entity type and its key properties; the hints EF Core appends to it are library text and are not modelled.

## Findings

| source | as written | input that shows it | evidently intended | confidence | as-written member | corrected member |
|---|---|---|---|---|---|---|
| src/Utilities/BookStore.Utilities/Result.cs:23 | `Skip` multiplies `(Page - 1) * PageSize` in unchecked 32-bit arithmetic, so a large page number wraps to a negative offset, which `Skip` treats as 0 and which returns the first page | Page = 107374184, PageSize = 20: the offset should be 2147483660 and wraps to -2147483636 | the offset `(Page - 1) * PageSize` without wrap-around, so a page past the end is empty | not executed | Results.SkipAsWritten (with Results.SkipAsWrittenOverflows, BookRepository.OverflowingOffsetReturnsFirstPage) | Results.Skip (with Results.SkipNextPage, BookRepository.GetPagedWindow, BookRepository.GetPagedPosition) |
