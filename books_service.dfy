/**
 * `BooksService`: create, list, read, update and delete books over the shared
 * store, with the author-existence and ISBN-uniqueness checks made before each
 * write.
 */
module Books {
  import opened Wrappers
  import opened Query
  import opened Catalog

  /** A row of the `findAll` result: the book with its left-joined author. */
  datatype BookRow = BookRow(book: Book, author: Option<Author>)

  /**
   * The WHERE clause of `findAll`: a non-empty search must occur in the title
   * or the ISBN, ignoring case; a supplied author id must be the book's.
   */
  predicate BookMatches(b: Book, search: Option<string>, authorId: Option<Id>) {
    (search.None? || search.value == "" ||
     ContainsIgnoringCase(b.title, search.value) || ContainsIgnoringCase(b.isbn, search.value)) &&
    (authorId.None? || b.authorId == authorId.value)
  }

  function MatchingBooks(books: map<Id, Book>, search: Option<string>, authorId: Option<Id>): set<Id> {
    set k | k in books && BookMatches(books[k], search, authorId)
  }

  function CreatedStamps(books: map<Id, Book>): map<Id, nat> {
    map k | k in books :: books[k].createdAt
  }

  function JoinAuthor(authors: map<Id, Author>, b: Book): Option<Author> {
    if b.authorId in authors then Some(authors[b.authorId]) else None
  }

  /**
   * `findAll(page, limit, search, authorId)` over a snapshot of the tables:
   * `total` counts every matching book, `data` is the window of `limit` rows
   * after `(page - 1) * limit` in `createdAt` descending order.
   */
  function FindAll(
    books: map<Id, Book>, authors: map<Id, Author>,
    page: int, limit: int, search: Option<string>, authorId: Option<Id>): (r: Page<BookRow>)
    requires forall k :: k in books ==> books[k].id == k
    requires page >= 1 && 1 <= limit <= 100
    requires search.Some? ==> PlainSearch(search.value)
    ensures r.page == page && r.limit == limit
    ensures r.total == |MatchingBooks(books, search, authorId)|
    ensures |r.data| == Min(limit, Max(0, r.total - (page - 1) * limit))
    ensures forall i :: 0 <= i < |r.data| ==>
      var b := r.data[i].book;
      b.id in books && books[b.id] == b && BookMatches(b, search, authorId) &&
      r.data[i].author == JoinAuthor(authors, b) &&
      Rank(CreatedStamps(books), MatchingBooks(books, search, authorId), b.id) == (page - 1) * limit + i
    ensures forall i, j :: 0 <= i < j < |r.data| ==> r.data[i].book.createdAt >= r.data[j].book.createdAt
  {
    var ids := MatchingBooks(books, search, authorId);
    var stamps := CreatedStamps(books);
    var keys := PageKeys(stamps, ids, page, limit);
    var data := RowsOf(books, authors, keys);
    PageRows(books, authors, page, limit, search, authorId, keys, data);
    Page(data, |ids|, page, limit)
  }

  /** The rows built from the page keys keep the order and the ranks of the keys. */
  lemma PageRows(
    books: map<Id, Book>, authors: map<Id, Author>,
    page: int, limit: int, search: Option<string>, authorId: Option<Id>,
    keys: seq<Id>, data: seq<BookRow>)
    requires forall k :: k in books ==> books[k].id == k
    requires page >= 1 && 1 <= limit <= 100
    requires keys == PageKeys(CreatedStamps(books), MatchingBooks(books, search, authorId), page, limit)
    requires data == RowsOf(books, authors, keys)
    ensures forall i :: 0 <= i < |data| ==>
      var b := data[i].book;
      b.id in books && books[b.id] == b && BookMatches(b, search, authorId) &&
      data[i].author == JoinAuthor(authors, b) &&
      Rank(CreatedStamps(books), MatchingBooks(books, search, authorId), b.id) == (page - 1) * limit + i
    ensures forall i, j :: 0 <= i < j < |data| ==> data[i].book.createdAt >= data[j].book.createdAt
  {
    var stamps, ids := CreatedStamps(books), MatchingBooks(books, search, authorId);
    forall i | 0 <= i < |data|
      ensures var b := data[i].book;
        b.id in books && books[b.id] == b && BookMatches(b, search, authorId) &&
        data[i].author == JoinAuthor(authors, b) &&
        Rank(stamps, ids, b.id) == (page - 1) * limit + i
    {
      var k := keys[i];
      assert k in ids && data[i].book == books[k];
    }
    forall i, j | 0 <= i < j < |data|
      ensures data[i].book.createdAt >= data[j].book.createdAt
    {
      assert Before(stamps, keys[i], keys[j]);
      assert stamps[keys[i]] == data[i].book.createdAt && stamps[keys[j]] == data[j].book.createdAt;
    }
  }

  /** The rows for the given keys, each book with its left-joined author. */
  function RowsOf(books: map<Id, Book>, authors: map<Id, Author>, keys: seq<Id>): (rows: seq<BookRow>)
    requires forall i :: 0 <= i < |keys| ==> keys[i] in books
    ensures |rows| == |keys|
    ensures forall i :: 0 <= i < |keys| ==>
      rows[i].book == books[keys[i]] && rows[i].author == JoinAuthor(authors, books[keys[i]])
  {
    if keys == [] then []
    else [BookRow(books[keys[0]], JoinAuthor(authors, books[keys[0]]))] + RowsOf(books, authors, keys[1..])
  }

  /** Every matching book appears on exactly one page, page Rank / limit + 1. */
  lemma BookOnExactlyOnePage(
    books: map<Id, Book>, authors: map<Id, Author>, limit: int,
    search: Option<string>, authorId: Option<Id>, k: Id, page: int)
    requires forall k :: k in books ==> books[k].id == k
    requires page >= 1 && 1 <= limit <= 100
    requires search.Some? ==> PlainSearch(search.value)
    requires k in MatchingBooks(books, search, authorId)
    ensures (exists i :: 0 <= i < |FindAll(books, authors, page, limit, search, authorId).data| &&
              FindAll(books, authors, page, limit, search, authorId).data[i].book.id == k)
        <==> page == Rank(CreatedStamps(books), MatchingBooks(books, search, authorId), k) / limit + 1
  {
    var stamps, ids := CreatedStamps(books), MatchingBooks(books, search, authorId);
    var keys := PageKeys(stamps, ids, page, limit);
    var r := FindAll(books, authors, page, limit, search, authorId);
    assert |r.data| == |keys|;
    forall i | 0 <= i < |r.data|
      ensures r.data[i].book.id == keys[i]
    {
      assert r.data[i].book == books[keys[i]];
    }
    OnExactlyOnePage(stamps, ids, limit, k, page);
    if k in keys {
      var i :| 0 <= i < |keys| && keys[i] == k;
      assert r.data[i].book.id == k;
    }
  }

  /** An absent or empty search with no author filter matches the whole table. */
  lemma UnfilteredMatchesAll(books: map<Id, Book>, search: Option<string>)
    requires search.None? || search.value == ""
    ensures MatchingBooks(books, search, None) == books.Keys
  {
  }

  /** Under referential integrity the left join of `author` never comes back empty. */
  lemma JoinFindsAuthor(books: map<Id, Book>, authors: map<Id, Author>, k: Id)
    requires ReferentialIntegrity(authors, books) && k in books
    ensures JoinAuthor(authors, books[k]) == Some(authors[books[k].authorId])
  {
  }

  class BooksService {
    const store: CatalogStore

    constructor (store: CatalogStore)
      ensures this.store == store
    {
      this.store := store;
    }

    /**
     * `create`: the author must exist (checked first), the ISBN must be unused;
     * then one row with a fresh id and the supplied fields is saved.
     */
    method Create(dto: CreateBookDto) returns (o: Outcome<Book>)
      requires store.Valid()
      modifies store
      ensures store.Valid()
      ensures dto.authorId !in old(store.authors) ==>
        o == BadRequest(UnknownAuthor(dto.authorId)) && unchanged(store)
      ensures dto.authorId in old(store.authors) && IsbnInUse(old(store.books), dto.isbn) ==>
        o == BadRequest(IsbnTaken(dto.isbn)) && unchanged(store)
      ensures dto.authorId in old(store.authors) && !IsbnInUse(old(store.books), dto.isbn) ==>
        && o == Ok(NewBook(old(store.nextId), dto, old(store.clock)))
        && old(store.nextId) !in old(store.books)
        && store.books == old(store.books)[old(store.nextId) := o.value]
        && store.authors == old(store.authors)
        && store.clock == old(store.clock) + 1 && store.nextId == old(store.nextId) + 1
    {
      if dto.authorId !in store.authors {
        return BadRequest(UnknownAuthor(dto.authorId));
      }
      if existing :| existing in store.books && store.books[existing].isbn == dto.isbn {
        return BadRequest(IsbnTaken(dto.isbn));
      }
      var book := NewBook(store.nextId, dto, store.clock);
      CreateBookKeepsConsistent(store.authors, store.books, store.clock, store.nextId, dto);
      store.books := store.books[book.id := book];
      store.clock := store.clock + 1;
      store.nextId := store.nextId + 1;
      o := Ok(book);
    }

    /** `findOne`: the book with its author, or NotFound. */
    method FindOne(id: Id) returns (o: Outcome<BookView>)
      requires store.Valid()
      ensures id !in store.books ==> o == NotFound(BookNotFound(id))
      ensures id in store.books ==>
        o.Ok? && o.value.book == store.books[id] && o.value.author == store.authors[o.value.book.authorId]
    {
      if id !in store.books {
        return NotFound(BookNotFound(id));
      }
      var book := store.books[id];
      o := Ok(BookView(book, store.authors[book.authorId]));
    }

    /**
     * `update`: NotFound for a missing book, BadRequest for an unknown author
     * or an ISBN held by another book, each leaving the store as it was;
     * otherwise only the supplied fields change and the refreshed book is returned.
     */
    method Update(id: Id, dto: UpdateBookDto) returns (o: Outcome<BookView>)
      requires store.Valid()
      requires dto.isbn.Some? ==> dto.isbn.value != ""
      modifies store
      ensures store.Valid()
      ensures id !in old(store.books) ==> o == NotFound(BookNotFound(id)) && unchanged(store)
      ensures id in old(store.books) && dto.authorId.Some? && dto.authorId.value !in old(store.authors) ==>
        o == BadRequest(UnknownAuthor(dto.authorId.value)) && unchanged(store)
      ensures id in old(store.books) && (dto.authorId.Some? ==> dto.authorId.value in old(store.authors)) &&
              dto.isbn.Some? && IsbnHeldByOther(old(store.books), dto.isbn.value, id) ==>
        o == BadRequest(IsbnTaken(dto.isbn.value)) && unchanged(store)
      ensures BookUpdateAllowed(old(store.authors), old(store.books), id, dto) ==>
        && store.books == old(store.books)[id := ApplyBookUpdate(old(store.books)[id], dto, old(store.clock))]
        && store.authors == old(store.authors)
        && store.clock == old(store.clock) + 1 && store.nextId == old(store.nextId)
        && o == Ok(BookView(store.books[id], store.authors[store.books[id].authorId]))
    {
      var found := FindOne(id);
      if found.NotFound? {
        return NotFound(BookNotFound(id));
      }
      if dto.authorId.Some? {
        if dto.authorId.value !in store.authors {
          return BadRequest(UnknownAuthor(dto.authorId.value));
        }
      }
      if dto.isbn.Some? {
        if existing :| existing in store.books && store.books[existing].isbn == dto.isbn.value {
          if existing != id {
            return BadRequest(IsbnTaken(dto.isbn.value));
          }
        }
      }
      UpdateBookKeepsConsistent(store.authors, store.books, store.clock, store.nextId, id, dto);
      store.books := store.books[id := ApplyBookUpdate(store.books[id], dto, store.clock)];
      store.clock := store.clock + 1;
      o := FindOne(id);
    }

    /** `remove`: NotFound for a missing book, otherwise exactly that row is deleted. */
    method Remove(id: Id) returns (o: Outcome<()>)
      requires store.Valid()
      modifies store
      ensures store.Valid()
      ensures id !in old(store.books) ==> o == NotFound(BookNotFound(id)) && unchanged(store)
      ensures id in old(store.books) ==>
        && o == Ok(())
        && store.books == old(store.books) - {id}
        && store.authors == old(store.authors)
        && store.clock == old(store.clock) && store.nextId == old(store.nextId)
    {
      var found := FindOne(id);
      if found.NotFound? {
        return NotFound(BookNotFound(id));
      }
      RemoveBookKeepsConsistent(store.authors, store.books, store.clock, store.nextId, id);
      store.books := store.books - {id};
      o := Ok(());
    }
  }
}
