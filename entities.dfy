/**
 * The catalog's entities, the shapes the services return and the requests
 * they accept (src/Models/BookStore.Models).
 *
 * Entity keys are Guids in the source; here they are natural numbers
 * handed out by the database context, which keeps them fresh.
 */
module Entities {
  import opened Results

  type Id = nat

  /** A `DateTime` in UTC, as ticks supplied by the caller's clock. */
  type Timestamp = int

  /** The audit columns every base entity carries. */
  datatype Times = Times(createdAtUtc: Timestamp, updatedAtUtc: Option<Timestamp>)

  /** A freshly constructed entity: `CreatedAtUtc` at its default, never updated. */
  const Unstamped: Times := Times(0, None)

  datatype Author = Author(firstName: string, lastName: string, times: Times)

  datatype Store = Store(name: string, location: Option<string>, times: Times)

  datatype Book = Book(isbn: string, title: string, description: Option<string>, times: Times)

  /** A row of the BookAuthors join table; the pair is its key. */
  datatype BookAuthor = BookAuthor(bookId: Id, authorId: Id)

  /** The key of a StoreBooks join row; the row's payload is the quantity. */
  datatype StoreBookKey = StoreBookKey(storeId: Id, bookId: Id)

  /** An entity together with its key, as a query returns it. */
  datatype Keyed<E> = Keyed(id: Id, entity: E)

  // ---------------------------------------------------------------------
  // Data transfer objects. Collections that the queries return without an
  // ORDER BY are sets: their order is unspecified and each member occurs once.

  datatype AuthorDto = AuthorDto(id: Id, firstName: string, lastName: string)

  datatype StoreDto = StoreDto(id: Id, name: string, location: Option<string>)

  datatype BookDto = BookDto(id: Id, isbn: string, title: string, description: Option<string>)

  datatype BookDetailsDto = BookDetailsDto(
    id: Id, isbn: string, title: string, description: Option<string>,
    authors: set<AuthorDto>, stores: set<StoreDto>)

  datatype StoreDetailsDto = StoreDetailsDto(
    id: Id, name: string, location: Option<string>, books: set<BookDto>)

  function AuthorToDto(row: Keyed<Author>): (d: AuthorDto)
    ensures d.id == row.id
  {
    AuthorDto(row.id, row.entity.firstName, row.entity.lastName)
  }

  function StoreToDto(row: Keyed<Store>): (d: StoreDto)
    ensures d.id == row.id
  {
    StoreDto(row.id, row.entity.name, row.entity.location)
  }

  function BookToDto(row: Keyed<Book>): (d: BookDto)
    ensures d.id == row.id
  {
    BookDto(row.id, row.entity.isbn, row.entity.title, row.entity.description)
  }

  // ---------------------------------------------------------------------
  // Requests. An id list the client may omit is an `Option`.

  datatype CreateAuthorRequest = CreateAuthorRequest(firstName: string, lastName: string)

  datatype CreateStoreRequest = CreateStoreRequest(name: string, location: Option<string>)

  datatype CreateBookRequest = CreateBookRequest(
    isbn: string, title: string, description: Option<string>,
    authorIds: Option<seq<Id>>, storeIds: Option<seq<Id>>)

  datatype UpdateBookRequest = UpdateBookRequest(
    title: string, description: Option<string>,
    authorIds: Option<seq<Id>>, storeIds: Option<seq<Id>>)

  datatype AssignBookToStoreRequest = AssignBookToStoreRequest(storeId: Id, bookId: Id, quantity: int)

  datatype AssignAuthorToBookRequest = AssignAuthorToBookRequest(bookId: Id, authorId: Id)

  datatype BookFilterRequest = BookFilterRequest(
    title: Option<string>, authorName: Option<string>,
    page: int, pageSize: int, sortBy: Option<string>, desc: bool)
}
