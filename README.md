# Catalog service: ISBN codec, integrity guard and paginated queries

This project is a Dafny model of the core of a NestJS/TypeORM catalog service that manages
authors and their books. It has three parts:

- **The ISBN checksum codec.** It appears twice in the service:
  - `IsbnGeneratorUtil` validates ISBNs and generates ISBN-10 and ISBN-13 values;
  - the `IsISBNConstraint` validator holds a second copy of the rules.

  Both copies follow the ISO 2108 check-digit rules:
  - ISBN-10: weights 10..1, mod 11, `X` stands for 10;
  - ISBN-13: alternating weights 1 and 3, mod 10.

  Both copies are proved against one definition, `Isbn.ValidIsbn`.
- **The catalog store.** It holds the `authors` and `books` tables, a creation clock and a
  fresh-id supply. Its invariant combines four things:
  - every book's `authorId` names a stored author;
  - book ISBNs are pairwise distinct (the unique column);
  - every row is stored under its own id;
  - keys and timestamps come from the id supply and the clock.

  `BooksService` and `AuthorsService` run their create, read, update and delete operations
  over this store, and every write keeps the invariant. Deleting an author follows the
  `ON DELETE CASCADE` of `book.authorId`.
- **The `findAll` queries.** They are pure functions over a snapshot of the tables:
  - filter (case-insensitive substring search, plus an author filter for books);
  - order by `createdAt` descending;
  - skip `(page - 1) * limit` rows and take `limit` rows.

  Each row's position is characterised by its rank in that order. With ties on `createdAt`
  broken by key, every matching row lands on exactly one page.

Files and modules:

| file | module | models |
|---|---|---|
| `wrappers.dfy` | `Wrappers` | the optional value shared by the other modules |
| `isbn.dfy` | `Isbn` | character classes, separator stripping, weighted sums, the two acceptance rules, single-error detection |
| `isbn_generator.dfy` | `IsbnGenerator` | `IsbnGeneratorUtil`: validation loops, renderings, the generators as written and corrected |
| `isbn_validator.dfy` | `IsbnValidator` | `IsISBNConstraint.validate` and its two checksum loops |
| `book_dto.dfy` | `BookDto` | the ISBN pattern of the book DTOs |
| `query.dfy` | `Query` | listing order, rank, page window, ILIKE as a case-folded substring test |
| `catalog.dfy` | `Catalog` | entities, DTOs, outcomes, the store invariant and `CatalogStore` |
| `books_service.dfy` | `Books` | `BooksService` and its `findAll` |
| `authors_service.dfy` | `Authors` | `AuthorsService` and its `findAll` |

## Model

| member | source | states |
|---|---|---|
| Isbn.Strip | src/common/utils/isbn-generator.util.ts:95 | the stripped string has no hyphen or `\s` character, is no longer than the input, and is the input itself when the input has none |
| Isbn.StripAppend | src/common/utils/isbn-generator.util.ts:95 | the global replace works character by character: stripping a concatenation is concatenating the stripped parts |
| Isbn.ValidIsbnIgnoresSeparator | src/common/utils/isbn-generator.util.ts:94-96 | inserting a hyphen or white-space character anywhere never changes whether a string is a valid ISBN |
| Isbn.ValidIsbnLength | src/common/utils/isbn-generator.util.ts:97-102 | only a string whose stripped length is 10 or 13 can be valid |
| Isbn.Isbn13CheckDigit | src/common/utils/isbn-generator.util.ts:131 | the ISBN-13 check digit lies in 0..9 and brings the weighted sum to a multiple of 10 |
| Isbn.Isbn10RuleRejectsStrayX | src/common/validators/isbn.validator.ts:27-29 | a lower-case `x` anywhere, or an `X` before the tenth position, fails the ISBN-10 rule |
| Isbn.Isbn10DetectsSingleChange | src/common/validators/isbn.validator.ts:31-38 | changing any one character of a valid ISBN-10 makes it invalid |
| Isbn.Isbn13DetectsSingleChange | src/common/validators/isbn.validator.ts:50-58 | changing any one character of a valid ISBN-13 makes it invalid |
| Isbn.Isbn13CheckDigitUnique | src/common/utils/isbn-generator.util.ts:124-136 | a twelve-digit body, with any prefix, has exactly one final digit that passes the ISBN-13 rule |
| Isbn.DigitStringValidity | src/common/utils/isbn-generator.util.ts:94-103 | for a string of digits, validity is the ISBN-10 rule or the ISBN-13 rule applied to the string itself |
| Isbn.KnownIsbn13 | src/common/utils/isbn-generator.util.ts:124-136 | the published example 9780306406157 is valid |
| Isbn.KnownIsbn10 | src/common/utils/isbn-generator.util.ts:108-119 | the published example 0306406152 is valid and 0306406153 is not |
| IsbnGenerator.NatToString | src/common/utils/isbn-generator.util.ts:12-13 | `toString()` of a non-negative number is a non-empty string of digits |
| IsbnGenerator.NatToStringLength | src/common/utils/isbn-generator.util.ts:12-13 | a number with k decimal digits renders as k characters |
| IsbnGenerator.WeightedSum10 | src/common/utils/isbn-generator.util.ts:113-115 | the accumulator loop computes the ISBN-10 weighted sum of the first nine digits |
| IsbnGenerator.WeightedSum13 | src/common/utils/isbn-generator.util.ts:129-132 | the accumulator loop computes the ISBN-13 weighted sum of the first twelve digits |
| IsbnGenerator.IsValidIsbn10 | src/common/utils/isbn-generator.util.ts:108-119 | accepts exactly the strings meeting the ISBN-10 rule: nine digits, then a digit or `X`, weighted sum a multiple of 11 |
| IsbnGenerator.IsValidIsbn13 | src/common/utils/isbn-generator.util.ts:124-136 | accepts exactly thirteen digits whose last digit is the check digit of the others; no 978/979 prefix check |
| IsbnGenerator.IsValid | src/common/utils/isbn-generator.util.ts:94-103 | accepts exactly the valid ISBNs; false whenever the stripped length is neither 10 nor 13 |
| IsbnGenerator.StripHyphenate13 | src/common/utils/isbn-generator.util.ts:37-47 | removing the hyphens of the 3-1-4-4-1 rendering gives back the thirteen characters |
| IsbnGenerator.StripHyphenate10 | src/common/utils/isbn-generator.util.ts:78-86 | removing the hyphens of the 1-3-4-rest rendering gives back the characters |
| IsbnGenerator.Isbn13OfRoundTrip | src/common/utils/isbn-generator.util.ts:26-47 | body plus computed check digit, hyphenated, is a valid ISBN whose stripped form is body + check digit |
| IsbnGenerator.CompleteIsbn13 | src/common/utils/isbn-generator.util.ts:20-47 | a body of length other than 12 raises 'Invalid ISBN structure'; a twelve-digit body yields its valid hyphenated ISBN-13 |
| IsbnGenerator.Isbn13Body | src/common/utils/isbn-generator.util.ts:16-18 | the unchecked body `'978' + group + publisher + title` is all digits |
| IsbnGenerator.Isbn13BodyLength | src/common/utils/isbn-generator.util.ts:12-18 | a five-digit title makes the body at least 13 characters long; a four-digit title and one-digit group make it exactly 12 |
| IsbnGenerator.GenerateValidIsbn13 | src/common/utils/isbn-generator.util.ts:10-23 | as written, every draw, with no group identifier or any non-negative integer one, ends in 'Invalid ISBN structure' |
| IsbnGenerator.GenerateIsbn13Corrected | src/common/utils/isbn-generator.util.ts:10-47 | with a four-digit title every draw yields a valid ISBN-13 |
| IsbnGenerator.GenerateMultipleIsbn13 | src/common/utils/isbn-generator.util.ts:150-156 | as written, count ≤ 0 yields [] and any positive count raises 'Invalid ISBN structure' |
| IsbnGenerator.GenerateMultipleIsbn13Corrected | src/common/utils/isbn-generator.util.ts:150-156 | `Array.from` of the `Set` filled by the count calls: the drawn ISBNs deduplicated in order of first insertion, so pairwise-distinct, valid, at most count of them, exactly the values the calls produced (no retry on a collision) |
| IsbnGenerator.Dedup | src/common/utils/isbn-generator.util.ts:151-155 | a `Set` read back with `Array.from` is never longer than the values inserted |
| IsbnGenerator.DedupElements | src/common/utils/isbn-generator.util.ts:151-155 | the deduplication holds each inserted value exactly once and nothing else |
| IsbnGenerator.DedupKeepsFirstOrder | src/common/utils/isbn-generator.util.ts:151-155 | for positions i < j of the result, the value at i was first inserted before the value at j |
| IsbnGenerator.DedupOfDistinct | src/common/utils/isbn-generator.util.ts:151-155 | without collisions the result is the inserted sequence itself, in insertion order |
| IsbnGenerator.DrawnIsbns | src/common/utils/isbn-generator.util.ts:152-154 | the first n calls produce n ISBNs, one per draw |
| IsbnGenerator.DrawnIsbnsAt | src/common/utils/isbn-generator.util.ts:152-154 | the i-th of the first n calls produces the ISBN of the i-th draw |
| IsbnGenerator.BatchResult | src/common/utils/isbn-generator.util.ts:150-156 | the deduplicated first n draws are pairwise distinct, valid, at most n, and exactly the drawn values |
| IsbnGenerator.Isbn10Body | src/common/utils/isbn-generator.util.ts:56-61 | the unchecked body `group + publisher + title` is all digits |
| IsbnGenerator.Isbn10BodyLength | src/common/utils/isbn-generator.util.ts:56-61 | the drawn widths make an eight-digit body (nine with a five-digit title) |
| IsbnGenerator.Isbn10CheckValue | src/common/utils/isbn-generator.util.ts:71 | `11 - sum % 11` lies in 1..11 and brings the weighted sum to a multiple of 11 |
| IsbnGenerator.AsWrittenIsbn10Verdict | src/common/utils/isbn-generator.util.ts:70-86 | a nine-digit body completed as written is valid exactly when the check value is at most 10 (10 renders as `X`) |
| IsbnGenerator.CompleteIsbn10 | src/common/utils/isbn-generator.util.ts:63-86 | a body under nine digits reads a missing digit (NaN); a nine-digit body yields the rendering, valid iff the check value is not 11 |
| IsbnGenerator.CheckElevenCounterexample | src/common/utils/isbn-generator.util.ts:71-72 | the body 000000000 gets check value 11 and an invalid result |
| IsbnGenerator.GenerateValidIsbn10 | src/common/utils/isbn-generator.util.ts:54-68 | as written, every draw gives an eight-digit body and a NaN check value |
| IsbnGenerator.Isbn10CheckDigit | src/common/utils/isbn-generator.util.ts:71 | the check value reduced mod 11 lies in 0..10 and brings the weighted sum to a multiple of 11 |
| IsbnGenerator.Isbn10OfRoundTrip | src/common/utils/isbn-generator.util.ts:63-86 | with the corrected check, every nine-digit body yields a valid ISBN-10 that strips to body + check character |
| IsbnGenerator.CompleteIsbn10Corrected | src/common/utils/isbn-generator.util.ts:63-86 | the corrected completion always yields a valid ISBN-10 |
| IsbnGenerator.GenerateIsbn10Corrected | src/common/utils/isbn-generator.util.ts:54-86 | with a five-digit title every draw yields a valid ISBN-10 whose first nine digits are the body |
| IsbnValidator.IsValidIsbn10 | src/common/validators/isbn.validator.ts:22-39 | its own loop accepts exactly the strings meeting the ISBN-10 rule |
| IsbnValidator.IsValidIsbn13 | src/common/validators/isbn.validator.ts:41-59 | its own loop accepts exactly the strings meeting the ISBN-13 rule |
| IsbnValidator.Validate | src/common/validators/isbn.validator.ts:12-20 | false for a non-string; for a string, true iff it is a valid ISBN, the same verdict as `IsbnGeneratorUtil.isValid` |
| BookDto.PatternStripsToDigits | src/books/dto/create-book.dto.ts:18 | whatever the pattern admits strips to 12 or 13 digits, never an ISBN-10; the 12-digit form is never valid |
| BookDto.HyphenatedFormTooShort | src/books/dto/create-book.dto.ts:18 | every 3-1-2-5-1 digit grouping matches the pattern and is not a valid ISBN |
| BookDto.CorrectedPatternStripsToThirteenDigits | src/books/dto/create-book.dto.ts:18 | with a 3-1-2-6-1 alternative, everything admitted strips to exactly thirteen digits |
| BookDto.CorrectedPatternValidity | src/books/dto/create-book.dto.ts:18 | under the corrected pattern, validity is the ISBN-13 rule on the digits |
| BookDto.PatternRejectsGeneratedRendering | src/books/dto/create-book.dto.ts:18 | the generator's 3-1-4-4-1 rendering never matches the DTO pattern |
| Query.Arrange | src/books/books.service.ts:72 | the matching keys in listing order: each exactly once, created later (or same time, smaller key) first |
| Query.RankIsPosition | src/books/books.service.ts:72 | in the listing, a row's position equals the number of matching rows ordered before it |
| Query.Window | src/books/books.service.ts:72 | `skip(skip).take(limit)`: min(limit, max(0, n - skip)) rows, the i-th being row skip + i |
| Query.PageKeys | src/books/books.service.ts:55-72 | the page holds min(limit, max(0, total - skip)) rows in listing order; the i-th has rank skip + i; a row is on it iff skip ≤ rank < skip + limit |
| Query.OnExactlyOnePage | src/books/books.service.ts:55-72 | with `createdAt` ties broken by key, a matching row is on page p iff p = rank / limit + 1 |
| Query.Lower | src/books/books.service.ts:63 | case folding keeps the length and folds each character |
| Query.SearchCaseIrrelevant | src/books/books.service.ts:63 | folding the search term to lower case never changes whether it matches |
| Query.TextCaseIrrelevant | src/books/books.service.ts:63 | folding the searched text to lower case never changes whether it matches |
| Query.ContainsOwnSlice | src/books/books.service.ts:61-66 | every substring of a field finds that field |
| Catalog.ApplyAuthorUpdate | src/authors/authors.service.ts:55 | supplied fields overwrite, omitted fields, id and createdAt stay, updatedAt is restamped |
| Catalog.ApplyBookUpdate | src/books/books.service.ts:121 | supplied fields overwrite, omitted fields, id and createdAt stay, updatedAt is restamped |
| Catalog.CreateAuthorKeepsConsistent | src/authors/authors.service.ts:15-18 | inserting a new author under the next id keeps the store invariant |
| Catalog.CreateBookKeepsConsistent | src/books/books.service.ts:22-47 | with the author present and the ISBN unused, inserting the new book keeps integrity and ISBN uniqueness |
| Catalog.UpdateAuthorKeepsConsistent | src/authors/authors.service.ts:53-57 | updating a stored author keeps the store invariant |
| Catalog.UpdateBookKeepsConsistent | src/books/books.service.ts:92-123 | an update that passes the author and ISBN checks keeps integrity and ISBN uniqueness |
| Catalog.RemoveBookKeepsConsistent | src/books/books.service.ts:125-128 | deleting a book keeps the store invariant |
| Catalog.CascadeKeepsConsistent | src/entities/book.entity.ts:39-41 | deleting an author with its books keeps the invariant, leaves none of its books and keeps every other book unchanged |
| Catalog.DeleteWithoutCascadeBreaksIntegrity | src/entities/book.entity.ts:39-41 | without the cascade, deleting an author who has a book would break referential integrity |
| Catalog.CatalogStore.DeleteAuthor | src/authors/authors.service.ts:63 | the delete always succeeds: the author goes and the cascade removes exactly its books |
| Books.FindAll | src/books/books.service.ts:49-77 | echoes page and limit; total counts matching books; data is the ranked window of matching stored books, createdAt non-increasing, each with its left-joined author |
| Books.PageRows | src/books/books.service.ts:72-74 | the fetched rows keep the order and ranks of the page keys |
| Books.RowsOf | src/books/books.service.ts:57-59 | each fetched row carries the stored book and its left-joined author |
| Books.BookOnExactlyOnePage | src/books/books.service.ts:55-76 | with `createdAt` ties broken by key, each matching book appears on exactly one page, rank / limit + 1 |
| Books.UnfilteredMatchesAll | src/books/books.service.ts:61-70 | an absent or empty search with no author filter matches every book |
| Books.JoinFindsAuthor | src/books/books.service.ts:57-59 | under referential integrity the left join always finds the author |
| Books.BooksService.Create | src/books/books.service.ts:22-47 | unknown author: BadRequest, nothing changes; ISBN in use: BadRequest, nothing changes; otherwise exactly one new book with a fresh id and the supplied fields |
| Books.BooksService.FindOne | src/books/books.service.ts:79-90 | NotFound for a missing id; otherwise the stored book with its author |
| Books.BooksService.Update | src/books/books.service.ts:92-123 | NotFound / unknown author / ISBN of another book each fail with nothing changed; the book's own ISBN is allowed; otherwise only the supplied fields change |
| Books.BooksService.Remove | src/books/books.service.ts:125-128 | NotFound with nothing changed, or exactly that book deleted |
| Authors.AuthorsAt | src/authors/authors.service.ts:38 | the fetched authors are the stored rows of the page keys, in order |
| Authors.FindAll | src/authors/authors.service.ts:20-41 | echoes page and limit; total counts matching authors; data is the ranked window of matching stored authors, createdAt non-increasing |
| Authors.PageAuthors | src/authors/authors.service.ts:36-38 | the fetched authors keep the order and ranks of the page keys |
| Authors.NameSearchIgnoresCase | src/authors/authors.service.ts:29-34 | a non-empty search matches an author iff the lower-cased first or last name contains the lower-cased search; the case of neither side changes the verdict |
| Authors.AuthorsService.Create | src/authors/authors.service.ts:15-18 | exactly one new author with a fresh id and the supplied fields; books untouched |
| Authors.AuthorsService.FindOne | src/authors/authors.service.ts:43-51 | NotFound for a missing id; otherwise the stored author as it is |
| Authors.AuthorsService.Update | src/authors/authors.service.ts:53-57 | NotFound with nothing changed, or only the supplied fields change and the refreshed row is returned |
| Authors.AuthorsService.Remove | src/authors/authors.service.ts:59-69 | NotFound with nothing changed, or the author and exactly its books are deleted; the catch branch is unreachable |

## Left out

- Randomness: `generateRandomNumber` and `Math.random` are left out. The drawn group, publisher and title numbers are parameters, restricted to the ranges the source draws from.
- IsbnGenerator.GenerateValidIsbn13: the group identifier is a non-negative integer. Negative or fractional `number` values are not modelled; their `toString()` also makes the body longer than 12 characters, so the call throws just the same.
- JavaScript NaN arithmetic: the as-written ISBN-10 generator reads past an eight-digit body. It does not throw; it returns a string ending in `NaN`. The model reports that case as `Err(NotANumber)`.
- The `IsISBN` decorator registration is not modelled; only the constraint's `validate` is. `defaultMessage` is kept as a constant.
- Database-side query semantics: search patterns containing `%`, `_` or `\` are excluded by the `PlainSearch` precondition, because those characters act as LIKE wildcards or escapes. ILIKE is modelled as an ASCII case-folded substring test, without collation or Unicode case folding.
- Query.Arrange: the source's `ORDER BY createdAt DESC` leaves ties unordered. The model breaks ties by ascending key, so pages are deterministic. The exactly-one-page lemmas (`Query.OnExactlyOnePage`, `Books.BookOnExactlyOnePage`) depend on this tie-break: in the source, a row tied on `createdAt` may appear on two pages or on none across separate page queries.
- Books.FindAll: it requires page ≥ 1 and 1 ≤ limit ≤ 100, from `query.page || 1` / `query.limit || 10` and the query DTO bounds. It requires every row to be stored under its own id, as the store invariant guarantees. The DTO's trimming of `search` happens before the call and is not modelled.
- Authors.FindAll: has the same preconditions as `Books.FindAll`.
- Books.BooksService.Update: requires a supplied `isbn` to be non-empty, which the DTO pattern guarantees. With an empty string the source would skip the uniqueness check.
- Identifiers and timestamps: UUIDs are natural numbers from a counter. `createdAt` and `updatedAt` come from a clock that advances once per create or update; deletes leave it unchanged.
- DTO validation: only the ISBN pattern (`BookDto`) is modelled. Length limits, `IsUUID` and `IsDateString` are not modelled; dates are opaque strings.
- Concurrency: the model is sequential. The race between each pre-check and the following write is not represented.
- Store failures such as connection loss are not represented. `CatalogStore.DeleteAuthor` never reports `Failed`, so the catch of `AuthorsService.remove` is kept but unreachable.
- TypeORM relation loading: the author of a book view is read from the author table, with the same result as `relations: ['author']`.
- The controllers, modules, bootstrap, database module, data-source configuration and the `generate-isbn` command-line script are not part of this model. They do HTTP routing, configuration and console I/O.
- `generateMultipleISBN13` does not retry on a collision, so the model returns fewer than count values when draws coincide.
- Author deletion cascades to the author's books; no dependency-conflict outcome exists.
- Failed checks raise `BadRequest` or `NotFound`; the services have no separate conflict or reference-violation kinds.
- The unit tests (`*.service.spec.ts`) mock a `PrismaService` that these TypeORM services do not use. They test another variant of the services and are not part of this model.

## Findings

| source | as written | input that shows it | evidently intended | confidence | as-written member | corrected member |
|---|---|---|---|---|---|---|
| src/common/utils/isbn-generator.util.ts:13-23 | the title is drawn from 10000-99999, so `'978' + group + publisher + title` has 13 characters and the 12-character guard always throws | group 0, publisher 1000, title 10000 gives body 9780100010000 (13 characters) | a four-digit title (1000-9999), matching the 4-character title slot of the rendering | high, not executed | IsbnGenerator.GenerateValidIsbn13 | IsbnGenerator.GenerateIsbn13Corrected |
| src/common/utils/isbn-generator.util.ts:150-156 | the batch calls the always-throwing generator, so any positive count throws | count 1 | pairwise-distinct valid ISBN-13 values, one per call | high, not executed | IsbnGenerator.GenerateMultipleIsbn13 | IsbnGenerator.GenerateMultipleIsbn13Corrected |
| src/common/utils/isbn-generator.util.ts:56-68 | the body is 1 + 3 + 4 = 8 digits but the checksum loop reads nine, so the ninth digit is `NaN` | group 1, publisher 100, title 1000 gives body 11001000 | a nine-digit body (five-digit title) | high, not executed | IsbnGenerator.GenerateValidIsbn10 | IsbnGenerator.GenerateIsbn10Corrected |
| src/common/utils/isbn-generator.util.ts:71-72 | `11 - sum % 11` is 11 when the sum is a multiple of 11, and renders as the two characters `11` | body 000000000 gives 0-000-0000-011, which is invalid | `(11 - sum % 11) % 11`, giving check digit 0 | high, not executed | IsbnGenerator.CheckElevenCounterexample | IsbnGenerator.CompleteIsbn10Corrected |
| src/books/dto/create-book.dto.ts:18 | the hyphenated alternative 3-1-2-5-1 has only 12 digits, so every string it admits is an invalid ISBN | 978-0-12-34567-8 | a thirteen-digit grouping such as 3-1-2-6-1 | medium, not executed | BookDto.HyphenatedFormTooShort | BookDto.CorrectedPatternStripsToThirteenDigits |
