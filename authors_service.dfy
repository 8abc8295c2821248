/**
 * `AuthorsService`: create, list, read, update and delete authors over the
 * shared store. Deleting an author goes through the database's
 * `ON DELETE CASCADE`, which removes the author's books as well.
 */
module Authors {
  import opened Wrappers
  import opened Query
  import opened Catalog

  /** The WHERE clause of `findAll`: a non-empty search must occur in the first or the last name, ignoring case. */
  predicate AuthorMatches(a: Author, search: Option<string>) {
    search.None? || search.value == "" ||
    ContainsIgnoringCase(a.firstName, search.value) || ContainsIgnoringCase(a.lastName, search.value)
  }

  function MatchingAuthors(authors: map<Id, Author>, search: Option<string>): set<Id> {
    set k | k in authors && AuthorMatches(authors[k], search)
  }

  function CreatedStamps(authors: map<Id, Author>): map<Id, nat> {
    map k | k in authors :: authors[k].createdAt
  }

  /** The authors stored under the given keys, in order. */
  function AuthorsAt(authors: map<Id, Author>, keys: seq<Id>): (rows: seq<Author>)
    requires forall i :: 0 <= i < |keys| ==> keys[i] in authors
    ensures |rows| == |keys|
    ensures forall i :: 0 <= i < |keys| ==> rows[i] == authors[keys[i]]
  {
    if keys == [] then [] else [authors[keys[0]]] + AuthorsAt(authors, keys[1..])
  }

  /**
   * `findAll(page, limit, search)` over a snapshot of the author table:
   * `total` counts every matching author, `data` is the window of `limit`
   * rows after `(page - 1) * limit` in `createdAt` descending order.
   */
  function FindAll(authors: map<Id, Author>, page: int, limit: int, search: Option<string>): (r: Page<Author>)
    requires forall k :: k in authors ==> authors[k].id == k
    requires page >= 1 && 1 <= limit <= 100
    requires search.Some? ==> PlainSearch(search.value)
    ensures r.page == page && r.limit == limit
    ensures r.total == |MatchingAuthors(authors, search)|
    ensures |r.data| == Min(limit, Max(0, r.total - (page - 1) * limit))
    ensures forall i :: 0 <= i < |r.data| ==>
      var a := r.data[i];
      a.id in authors && authors[a.id] == a && AuthorMatches(a, search) &&
      Rank(CreatedStamps(authors), MatchingAuthors(authors, search), a.id) == (page - 1) * limit + i
    ensures forall i, j :: 0 <= i < j < |r.data| ==> r.data[i].createdAt >= r.data[j].createdAt
  {
    var ids := MatchingAuthors(authors, search);
    var keys := PageKeys(CreatedStamps(authors), ids, page, limit);
    var data := AuthorsAt(authors, keys);
    PageAuthors(authors, page, limit, search, keys, data);
    Page(data, |ids|, page, limit)
  }

  /** The authors fetched for the page keys keep the order and the ranks of the keys. */
  lemma PageAuthors(
    authors: map<Id, Author>, page: int, limit: int, search: Option<string>, keys: seq<Id>, data: seq<Author>)
    requires forall k :: k in authors ==> authors[k].id == k
    requires page >= 1 && 1 <= limit <= 100
    requires keys == PageKeys(CreatedStamps(authors), MatchingAuthors(authors, search), page, limit)
    requires data == AuthorsAt(authors, keys)
    ensures forall i :: 0 <= i < |data| ==>
      var a := data[i];
      a.id in authors && authors[a.id] == a && AuthorMatches(a, search) &&
      Rank(CreatedStamps(authors), MatchingAuthors(authors, search), a.id) == (page - 1) * limit + i
    ensures forall i, j :: 0 <= i < j < |data| ==> data[i].createdAt >= data[j].createdAt
  {
    var stamps, ids := CreatedStamps(authors), MatchingAuthors(authors, search);
    forall i | 0 <= i < |data|
      ensures var a := data[i];
        a.id in authors && authors[a.id] == a && AuthorMatches(a, search) &&
        Rank(stamps, ids, a.id) == (page - 1) * limit + i
    {
      assert keys[i] in ids && data[i] == authors[keys[i]];
    }
    forall i, j | 0 <= i < j < |data|
      ensures data[i].createdAt >= data[j].createdAt
    {
      assert Before(stamps, keys[i], keys[j]);
      assert stamps[keys[i]] == data[i].createdAt && stamps[keys[j]] == data[j].createdAt;
    }
  }

  /**
   * A non-empty search matches an author exactly when the lower-cased first or
   * last name contains the lower-cased search: the verdict depends on neither
   * the case of the names nor that of the search.
   */
  lemma NameSearchIgnoresCase(a: Author, search: string)
    ensures AuthorMatches(a, Some(search)) <==>
      search == "" ||
      ContainsIgnoringCase(Lower(a.firstName), Lower(search)) ||
      ContainsIgnoringCase(Lower(a.lastName), Lower(search))
  {
    TextCaseIrrelevant(a.firstName, Lower(search));
    SearchCaseIrrelevant(a.firstName, search);
    TextCaseIrrelevant(a.lastName, Lower(search));
    SearchCaseIrrelevant(a.lastName, search);
  }

  class AuthorsService {
    const store: CatalogStore

    constructor (store: CatalogStore)
      ensures this.store == store
    {
      this.store := store;
    }

    /** `create`: one author row with a fresh id and the supplied fields; no checks. */
    method Create(dto: CreateAuthorDto) returns (o: Outcome<Author>)
      requires store.Valid()
      modifies store
      ensures store.Valid()
      ensures o == Ok(NewAuthor(old(store.nextId), dto, old(store.clock)))
      ensures old(store.nextId) !in old(store.authors)
      ensures store.authors == old(store.authors)[old(store.nextId) := o.value]
      ensures store.books == old(store.books)
      ensures store.clock == old(store.clock) + 1 && store.nextId == old(store.nextId) + 1
    {
      var author := NewAuthor(store.nextId, dto, store.clock);
      CreateAuthorKeepsConsistent(store.authors, store.books, store.clock, store.nextId, dto);
      store.authors := store.authors[author.id := author];
      store.clock := store.clock + 1;
      store.nextId := store.nextId + 1;
      o := Ok(author);
    }

    /** `findOne`: the stored author as it is, or NotFound. */
    method FindOne(id: Id) returns (o: Outcome<Author>)
      requires store.Valid()
      ensures id !in store.authors ==> o == NotFound(AuthorNotFound(id))
      ensures id in store.authors ==> o == Ok(store.authors[id]) && o.value.id == id
    {
      if id !in store.authors {
        return NotFound(AuthorNotFound(id));
      }
      o := Ok(store.authors[id]);
    }

    /** `update`: NotFound for a missing author; otherwise only the supplied fields change. */
    method Update(id: Id, dto: UpdateAuthorDto) returns (o: Outcome<Author>)
      requires store.Valid()
      modifies store
      ensures store.Valid()
      ensures id !in old(store.authors) ==> o == NotFound(AuthorNotFound(id)) && unchanged(store)
      ensures id in old(store.authors) ==>
        && store.authors == old(store.authors)[id := ApplyAuthorUpdate(old(store.authors)[id], dto, old(store.clock))]
        && store.books == old(store.books)
        && store.clock == old(store.clock) + 1 && store.nextId == old(store.nextId)
        && o == Ok(store.authors[id])
    {
      var found := FindOne(id);
      if found.NotFound? {
        return NotFound(AuthorNotFound(id));
      }
      UpdateAuthorKeepsConsistent(store.authors, store.books, store.clock, store.nextId, id, dto);
      store.authors := store.authors[id := ApplyAuthorUpdate(store.authors[id], dto, store.clock)];
      store.clock := store.clock + 1;
      o := FindOne(id);
    }

    /**
     * `remove`: NotFound for a missing author; otherwise the author and, by the
     * cascade, every one of its books are deleted. A failing delete would be
     * reported as NotFound(AuthorHasBooks), but under the cascade it never fails.
     */
    method Remove(id: Id) returns (o: Outcome<()>)
      requires store.Valid()
      modifies store
      ensures store.Valid()
      ensures id !in old(store.authors) ==> o == NotFound(AuthorNotFound(id)) && unchanged(store)
      ensures id in old(store.authors) ==>
        && o == Ok(())
        && store.authors == old(store.authors) - {id}
        && store.books == Cascade(old(store.books), id)
        && store.clock == old(store.clock) && store.nextId == old(store.nextId)
    {
      var found := FindOne(id);
      if found.NotFound? {
        return NotFound(AuthorNotFound(id));
      }
      var status := store.DeleteAuthor(id);
      match status {
        case Deleted => o := Ok(());
        case Failed => o := NotFound(AuthorHasBooks);
      }
    }
  }
}
