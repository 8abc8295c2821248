/**
 * The persistence layer both services share: the `authors` and `books` tables
 * (entities `Author` and `Book`), the request DTOs, the outcome of a service
 * call, and the store invariant the database schema enforces.
 *
 * Primary keys are drawn from a fresh-id supply (`nextId`) instead of UUIDs,
 * and `createdAt` / `updatedAt` from a monotone clock.
 */
module Catalog {
  import opened Wrappers
  import opened Query

  datatype Author = Author(
    id: Id,
    firstName: string,
    lastName: string,
    bio: Option<string>,
    birthDate: Option<string>,
    createdAt: nat,
    updatedAt: nat)

  datatype Book = Book(
    id: Id,
    title: string,
    isbn: string,
    publishedDate: Option<string>,
    genre: Option<string>,
    authorId: Id,
    createdAt: nat,
    updatedAt: nat)

  datatype CreateAuthorDto = CreateAuthorDto(
    firstName: string, lastName: string, bio: Option<string>, birthDate: Option<string>)

  /** An update DTO: `None` is a field the request leaves out. */
  datatype UpdateAuthorDto = UpdateAuthorDto(
    firstName: Option<string>, lastName: Option<string>, bio: Option<string>, birthDate: Option<string>)

  datatype CreateBookDto = CreateBookDto(
    title: string, isbn: string, publishedDate: Option<string>, genre: Option<string>, authorId: Id)

  datatype UpdateBookDto = UpdateBookDto(
    title: Option<string>, isbn: Option<string>, publishedDate: Option<string>, genre: Option<string>,
    authorId: Option<Id>)

  /** Why a call failed; each corresponds to one exception message of the services. */
  datatype Failure =
    | AuthorNotFound(id: Id)      // `Author with ID … not found` (NotFoundException)
    | BookNotFound(id: Id)        // `Book with ID … not found` (NotFoundException)
    | UnknownAuthor(authorId: Id) // `Author with ID … not found` (BadRequestException)
    | IsbnTaken(isbn: string)     // `Book with ISBN … already exists`
    | AuthorHasBooks              // `Cannot delete author with associated books …`

  /** The result of a service call: a value, or the HTTP exception it throws. */
  datatype Outcome<T> = Ok(value: T) | NotFound(reason: Failure) | BadRequest(reason: Failure)

  /** A book loaded together with its `author` relation. */
  datatype BookView = BookView(book: Book, author: Author)

  /** The `{ data, total, page, limit }` object both `findAll` operations return. */
  datatype Page<T> = Page(data: seq<T>, total: nat, page: int, limit: int)

  // ------------------------------------------------------------ invariant

  ghost predicate KeyedById(authors: map<Id, Author>, books: map<Id, Book>) {
    (forall k :: k in authors ==> authors[k].id == k) &&
    (forall k :: k in books ==> books[k].id == k)
  }

  /** The foreign key `book.authorId` references an existing author. */
  ghost predicate ReferentialIntegrity(authors: map<Id, Author>, books: map<Id, Book>) {
    forall k :: k in books ==> books[k].authorId in authors
  }

  /** The unique constraint on `book.isbn`. */
  ghost predicate IsbnsDistinct(books: map<Id, Book>) {
    forall j, k :: j in books && k in books && j != k ==> books[j].isbn != books[k].isbn
  }

  /** Every stored key was issued by the id supply, every stamp by the clock. */
  ghost predicate Issued(authors: map<Id, Author>, books: map<Id, Book>, clock: nat, nextId: Id) {
    (forall k :: k in authors ==> k < nextId && authors[k].createdAt <= authors[k].updatedAt < clock) &&
    (forall k :: k in books ==> k < nextId && books[k].createdAt <= books[k].updatedAt < clock)
  }

  ghost predicate Consistent(authors: map<Id, Author>, books: map<Id, Book>, clock: nat, nextId: Id) {
    KeyedById(authors, books) && ReferentialIntegrity(authors, books) && IsbnsDistinct(books) &&
    Issued(authors, books, clock, nextId)
  }

  /** Some stored book carries this ISBN. */
  predicate IsbnInUse(books: map<Id, Book>, isbn: string) {
    exists k :: k in books && books[k].isbn == isbn
  }

  /** A stored book other than `id` carries this ISBN. */
  predicate IsbnHeldByOther(books: map<Id, Book>, isbn: string, id: Id) {
    exists k :: k in books && k != id && books[k].isbn == isbn
  }

  // ---------------------------------------------------------- row changes

  /** The row `save` inserts for a create request. */
  function NewAuthor(id: Id, dto: CreateAuthorDto, now: nat): Author {
    Author(id, dto.firstName, dto.lastName, dto.bio, dto.birthDate, now, now)
  }

  function NewBook(id: Id, dto: CreateBookDto, now: nat): Book {
    Book(id, dto.title, dto.isbn, dto.publishedDate, dto.genre, dto.authorId, now, now)
  }

  function Pick<T>(supplied: Option<T>, current: T): T {
    match supplied
    case Some(v) => v
    case None => current
  }

  /** `repository.update(id, dto)`: supplied fields overwrite, `updatedAt` is restamped. */
  function ApplyAuthorUpdate(a: Author, dto: UpdateAuthorDto, now: nat): (r: Author)
    ensures r.id == a.id && r.createdAt == a.createdAt && r.updatedAt == now
    ensures r.firstName == (if dto.firstName.Some? then dto.firstName.value else a.firstName)
    ensures r.lastName == (if dto.lastName.Some? then dto.lastName.value else a.lastName)
    ensures r.bio == (if dto.bio.Some? then dto.bio else a.bio)
    ensures r.birthDate == (if dto.birthDate.Some? then dto.birthDate else a.birthDate)
  {
    a.(firstName := Pick(dto.firstName, a.firstName),
       lastName := Pick(dto.lastName, a.lastName),
       bio := if dto.bio.Some? then dto.bio else a.bio,
       birthDate := if dto.birthDate.Some? then dto.birthDate else a.birthDate,
       updatedAt := now)
  }

  function ApplyBookUpdate(b: Book, dto: UpdateBookDto, now: nat): (r: Book)
    ensures r.id == b.id && r.createdAt == b.createdAt && r.updatedAt == now
    ensures r.title == (if dto.title.Some? then dto.title.value else b.title)
    ensures r.isbn == (if dto.isbn.Some? then dto.isbn.value else b.isbn)
    ensures r.publishedDate == (if dto.publishedDate.Some? then dto.publishedDate else b.publishedDate)
    ensures r.genre == (if dto.genre.Some? then dto.genre else b.genre)
    ensures r.authorId == (if dto.authorId.Some? then dto.authorId.value else b.authorId)
  {
    b.(title := Pick(dto.title, b.title),
       isbn := Pick(dto.isbn, b.isbn),
       publishedDate := if dto.publishedDate.Some? then dto.publishedDate else b.publishedDate,
       genre := if dto.genre.Some? then dto.genre else b.genre,
       authorId := Pick(dto.authorId, b.authorId),
       updatedAt := now)
  }

  /** The books left after the `ON DELETE CASCADE` of deleting an author. */
  function Cascade(books: map<Id, Book>, authorId: Id): map<Id, Book> {
    map k | k in books && books[k].authorId != authorId :: books[k]
  }

  /** The precondition under which a book update passes all three checks of the service. */
  predicate BookUpdateAllowed(authors: map<Id, Author>, books: map<Id, Book>, id: Id, dto: UpdateBookDto) {
    id in books &&
    (dto.authorId.Some? ==> dto.authorId.value in authors) &&
    (dto.isbn.Some? ==> !IsbnHeldByOther(books, dto.isbn.value, id))
  }

  // ------------------------------------------------ the invariant is kept

  lemma CreateAuthorKeepsConsistent(
    authors: map<Id, Author>, books: map<Id, Book>, clock: nat, nextId: Id, dto: CreateAuthorDto)
    requires Consistent(authors, books, clock, nextId)
    ensures nextId !in authors
    ensures Consistent(authors[nextId := NewAuthor(nextId, dto, clock)], books, clock + 1, nextId + 1)
  {
  }

  lemma CreateBookKeepsConsistent(
    authors: map<Id, Author>, books: map<Id, Book>, clock: nat, nextId: Id, dto: CreateBookDto)
    requires Consistent(authors, books, clock, nextId)
    requires dto.authorId in authors && !IsbnInUse(books, dto.isbn)
    ensures nextId !in books
    ensures Consistent(authors, books[nextId := NewBook(nextId, dto, clock)], clock + 1, nextId + 1)
  {
    var nb := books[nextId := NewBook(nextId, dto, clock)];
    forall j, k | j in nb && k in nb && j != k
      ensures nb[j].isbn != nb[k].isbn
    {
      if j == nextId {
        assert books[k].isbn != dto.isbn;
      } else if k == nextId {
        assert books[j].isbn != dto.isbn;
      }
    }
  }

  lemma UpdateAuthorKeepsConsistent(
    authors: map<Id, Author>, books: map<Id, Book>, clock: nat, nextId: Id, id: Id, dto: UpdateAuthorDto)
    requires Consistent(authors, books, clock, nextId) && id in authors
    ensures Consistent(authors[id := ApplyAuthorUpdate(authors[id], dto, clock)], books, clock + 1, nextId)
  {
  }

  lemma UpdateBookKeepsConsistent(
    authors: map<Id, Author>, books: map<Id, Book>, clock: nat, nextId: Id, id: Id, dto: UpdateBookDto)
    requires Consistent(authors, books, clock, nextId)
    requires BookUpdateAllowed(authors, books, id, dto)
    ensures Consistent(authors, books[id := ApplyBookUpdate(books[id], dto, clock)], clock + 1, nextId)
  {
    var nb := books[id := ApplyBookUpdate(books[id], dto, clock)];
    forall j, k | j in nb && k in nb && j != k
      ensures nb[j].isbn != nb[k].isbn
    {
      if j == id && dto.isbn.Some? {
        assert books[k].isbn != dto.isbn.value;
      } else if k == id && dto.isbn.Some? {
        assert books[j].isbn != dto.isbn.value;
      }
    }
  }

  lemma RemoveBookKeepsConsistent(
    authors: map<Id, Author>, books: map<Id, Book>, clock: nat, nextId: Id, id: Id)
    requires Consistent(authors, books, clock, nextId)
    ensures Consistent(authors, books - {id}, clock, nextId)
  {
  }

  /**
   * Deleting an author with the cascade keeps the invariant, removes every
   * book of that author and keeps every other book as it was.
   */
  lemma CascadeKeepsConsistent(
    authors: map<Id, Author>, books: map<Id, Book>, clock: nat, nextId: Id, id: Id)
    requires Consistent(authors, books, clock, nextId)
    ensures Consistent(authors - {id}, Cascade(books, id), clock, nextId)
    ensures forall k :: k in Cascade(books, id) ==> Cascade(books, id)[k].authorId != id
    ensures forall k :: k in books && books[k].authorId != id ==> k in Cascade(books, id) && Cascade(books, id)[k] == books[k]
  {
  }

  /** Without the cascade, deleting an author who still has a book breaks referential integrity. */
  lemma DeleteWithoutCascadeBreaksIntegrity(authors: map<Id, Author>, books: map<Id, Book>, id: Id, k: Id)
    requires k in books && books[k].authorId == id
    ensures !ReferentialIntegrity(authors - {id}, books)
  {
  }

  // ---------------------------------------------------------------- store

  /** The outcome of the database delete: the catch of `AuthorsService.remove` handles `Failed`. */
  datatype DeleteStatus = Deleted | Failed

  /** The two tables, the creation clock and the fresh-id supply. */
  class CatalogStore {
    var authors: map<Id, Author>
    var books: map<Id, Book>
    var clock: nat
    var nextId: Id

    ghost predicate Valid()
      reads this
    {
      Consistent(authors, books, clock, nextId)
    }

    constructor ()
      ensures Valid()
      ensures authors == map[] && books == map[] && clock == 0 && nextId == 0
    {
      authors := map[];
      books := map[];
      clock := 0;
      nextId := 0;
    }

    /**
     * `DELETE FROM authors WHERE id = …`: the `ON DELETE CASCADE` of
     * `book.authorId` removes the author's books in the same statement, so the
     * foreign key never rejects the delete and the status is always Deleted.
     */
    method DeleteAuthor(id: Id) returns (status: DeleteStatus)
      requires Valid()
      modifies this
      ensures Valid()
      ensures status == Deleted
      ensures authors == old(authors) - {id} && books == Cascade(old(books), id)
      ensures clock == old(clock) && nextId == old(nextId)
    {
      CascadeKeepsConsistent(authors, books, clock, nextId, id);
      books := Cascade(books, id);
      authors := authors - {id};
      status := Deleted;
    }
  }
}
