# Books/authors catalog services, modelled in Dafny

The repository serves two independent in-memory catalogs of books and
authors over GraphQL.

- The CRUD service (`bookschema.js`) keeps a `books` table and an `authors`
  table as insertion-ordered arrays. Its mutation resolvers change them in
  place: `addBook`/`addAuthor` push a record numbered `length + 1`,
  `updateBook`/`updateAuthor` replace the whole record at the index found by
  `findIndex`, and `deleteBook`/`deleteAuthor` splice it out.
  `deleteAuthor` refuses while some book still names the author. The
  `books` and `authors` queries return a table as it is; the other query
  and field resolvers are `find`/`filter` scans.
- The event service (`apolloserver.js`) keeps its own tables. `addBook`
  appends and publishes a `BOOK_ADDED` event carrying the new book. Its
  response always carries one fabricated error entry. `Book.author` throws
  when the book's author does not exist.

The model has three modules:

- `Records` (records.dfy): the `Book` and `Author` rows, the `Result`
  and `Failure` outcome types, `findIndex` on each table, `find` on the
  authors table, a generic `splice` of one row, and the referential invariant
  `AllReferenced` (every book names an existing author). It also holds the
  lemmas saying which table updates keep that invariant.
- `BookSchema` (book_schema.dfy): the class `Store` holds the two tables as
  `seq` fields. Each mutation is a method whose `ensures` gives the whole
  new state in terms of the old one. Each query or field resolver is a
  function of the table it reads.
- `ApolloServer` (apollo_server.dfy): the class `Server` holds `books`,
  a constant `authors`, and a ghost `outbox` that records every publish
  call. Its invariant `Valid` says three things. The seed stays a prefix
  of `books`. Ids run 1, 2, 3, … with no gap. The outbox holds exactly one
  `BOOK_ADDED` event per book added, in call order.

Ids are not unique in general. In the CRUD service a new book or author
is numbered `length + 1`, so after a deletion that number can already be
taken (bookschema.js:58, bookschema.js:74). Every lookup is therefore
specified as "the first row with that id", which is what `find` and
`findIndex` do. So the round trip "add, then look up the new id" returns
the added row exactly when no earlier row carries that id
(`IndexOfAppendedBook` and `FindAppendedAuthor` state both directions;
`AddedBookIsFound` states it for the `book(id)` query). `DuplicateBookIdAfterDelete`
exhibits the other case from the seed: after `deleteBook(1)`, `addBook`
numbers the new book 12, and `book(12)` still returns the old twelfth
book. Ids are therefore not keys: two rows can share one.

The `authors` query of the CRUD service resolves to the `books` table
(bookschema.js:31). The model keeps this: `AuthorsQuery` returns one entry
per book, read through the Author type (the book's id and name).

## Model

| member | source | states |
|---|---|---|
| Records.IndexOfBook | bookschema.js:130 | `findIndex` on books: -1 exactly when no book has the id; otherwise a position holding the id with no earlier position holding it |
| Records.IndexOfAuthor | bookschema.js:145 | `findIndex` on authors: -1 exactly when no author has the id; otherwise the first position holding it |
| Records.FindAuthor | bookschema.js:39-40 | query `author(id)`: none exactly when no author has the id; otherwise an author of the table with that id, at a position before which no author has it |
| Records.RemoveAt | bookschema.js:134 | `splice(i, 1)`: length drops by one, rows before `i` stay in place, rows after `i` shift down by one in the same order |
| Records.RemoveAtContents | bookschema.js:154 | splicing removes exactly one copy of the row at `i` and keeps every other row |
| Records.FindAppendedAuthor | bookschema.js:72-78 | the appended author is the row `findIndex` reaches for its id exactly when no earlier author has that id; `find` then returns it |
| Records.IndexOfAppendedBook | bookschema.js:56-63 | the appended book is the row `findIndex` reaches for its id exactly when no earlier book has that id |
| Records.AppendBookReferences | bookschema.js:56-63 | if every book named an existing author, after appending a book this still holds exactly when the new book's author exists (no validation) |
| Records.ReplaceBookReferences | bookschema.js:89-99 | replacing a book keeps the invariant exactly when the new record's author exists |
| Records.RemoveBookReferences | bookschema.js:129-135 | removing a book never creates a dangling reference |
| Records.AppendAuthorReferences | bookschema.js:72-78 | appending an author never creates a dangling reference |
| Records.ReplaceAuthorReferences | bookschema.js:109-120 | replacing an author by a record with the same id keeps the invariant |
| Records.RemoveUnreferencedAuthor | bookschema.js:149-154 | removing an author that no book names keeps the invariant |
| BookSchema.SeedBooks | bookschema.js:192-209 | 12 seed books with ids 1..12 in order, each authorId in 1..3 |
| BookSchema.SeedAuthors | bookschema.js:211-215 | 3 seed authors with ids 1..3 in order |
| BookSchema.SeedReferenced | bookschema.js:192-215 | every seed book names a seed author |
| BookSchema.BookQuery | bookschema.js:21 | query `book(id)`: none exactly when no book has the id; otherwise the first book with that id |
| BookSchema.BooksQuery | bookschema.js:26 | query `books` returns the live table, all rows in store order |
| BookSchema.AuthorsQuery | bookschema.js:31 | query `authors` lists the BOOKS table: one entry per book, same order, carrying that book's id and name |
| BookSchema.AuthorsQueryListsBooks | bookschema.js:28-32 | on the seed, `authors` yields 12 entries (not the 3 authors); the sixth is "1984" with id 6 |
| BookSchema.BookAuthor | bookschema.js:170-172 | field `Book.author`: none exactly when no author has the book's authorId; otherwise the first such author |
| BookSchema.AuthorBooks | bookschema.js:185-187 | field `Author.books`: only books of the table naming the author, and every such book |
| BookSchema.AuthorBooksAppend | bookschema.js:186 | the filter distributes over concatenation, so it keeps store order |
| BookSchema.AuthorBooksCount | bookschema.js:186 | each matching book occurs in the result as often as in the table; others never |
| BookSchema.AnyBookBy | bookschema.js:150 | `books.some(...)`: true exactly when some book names the author id |
| BookSchema.AnyBookByMeansAuthorBooks | bookschema.js:150 | an author has books exactly when `Author.books` is non-empty |
| BookSchema.Store.constructor | bookschema.js:192-215 | the process starts with the seed tables, which satisfy the referential invariant |
| BookSchema.Store.AddBook | bookschema.js:56-64 | appends `{id: old length + 1, name, authorId}` and returns it; earlier books and `authors` unchanged; the invariant survives exactly when the author exists |
| BookSchema.Store.AddAuthor | bookschema.js:72-79 | appends `{id: old length + 1, name}` and returns it; `books` unchanged; the invariant survives |
| BookSchema.Store.UpdateBook | bookschema.js:89-100 | unknown id: throws BookNotFound, nothing changes; otherwise only the first matching index is replaced by `{id, name, authorId}`, which is returned; `authors` unchanged |
| BookSchema.Store.UpdateAuthor | bookschema.js:109-121 | unknown id: throws AuthorNotFound, nothing changes; otherwise only the first matching index is replaced by `{id, name}`; `books` unchanged; the invariant survives |
| BookSchema.Store.DeleteBook | bookschema.js:129-136 | unknown id: not-found message, nothing changes; otherwise the first matching book is spliced out, the rest keep their order; `authors` unchanged |
| BookSchema.Store.DeleteAuthor | bookschema.js:144-156 | unknown id: not-found message, nothing changes; some book names it: throws, nothing changes; otherwise the first matching author is spliced out, `books` unchanged; the invariant survives |
| BookSchema.DuplicateBookIdAfterDelete | bookschema.js:56-64 | from the seed, `deleteBook(1)` reports the deletion, then `addBook` gives the new book id 12, and `book(12)` returns the old book 12, not the new one |
| BookSchema.AddedBookIsFound | bookschema.js:56-64 | when no book has id length + 1, `book(length + 1)` after `addBook` returns the added book |
| BookSchema.AddAuthorRoundTrip | bookschema.js:72-79 | from the seed, `addAuthor("X")` gives id 4 and `author(4)` has name "X" |
| ApolloServer.SeedBooks | apolloserver.js:41-51 | 5 seed books with ids 1..5 in order, each authorId in 1..3 |
| ApolloServer.SeedAuthors | apolloserver.js:53-57 | 3 authors with ids 1..3 in order |
| ApolloServer.SeedReferenced | apolloserver.js:41-57 | every seed book names an existing author |
| ApolloServer.BookAuthor | apolloserver.js:70-76 | field `Book.author`: throws AuthorNotFound(authorId) exactly when no author has the id; otherwise the first such author, never an absent value |
| ApolloServer.ReferencedBookResolves | apolloserver.js:70-76 | while every book names an existing author, `Book.author` never throws for a book of the table |
| ApolloServer.Events | apolloserver.js:88-90 | one BOOK_ADDED event per added book, payload that book, in order |
| ApolloServer.EventsAppend | apolloserver.js:88-90 | one more book adds exactly one event, at the end |
| ApolloServer.GaplessIdsLookup | apolloserver.js:80-86 | with ids 1..n in order, `findIndex` finds id k at position k - 1 |
| ApolloServer.ReachableIdsAreKeys | apolloserver.js:80-86 | in every state reached from the seed, no two books share an id and the book with id k sits at position k - 1 |
| ApolloServer.Server.constructor | apolloserver.js:41-57 | starts from the seed tables with an empty outbox; the invariant holds |
| ApolloServer.Server.Books | apolloserver.js:66 | query `books` returns the live table |
| ApolloServer.Server.Authors | apolloserver.js:67 | query `authors` returns the authors table, a constant no resolver changes |
| ApolloServer.Server.AddBook | apolloserver.js:79-101 | appends `{id: old length + 1, name, authorId}` without checking the author; publishes exactly one BOOK_ADDED event carrying it; returns it with exactly the error `{field: "name", message: "bad"}`; keeps ids gapless |
| ApolloServer.DanglingAuthorAfterAdd | apolloserver.js:79-86 | from the seed, `addBook` with author 7 succeeds, and `Book.author` then throws for the new book |

## Left out

- The GraphQL schema and type construction (object types, `gql` type definitions, argument nullability) is configuration, not behaviour. `book(id)` and `author(id)` accept an omitted id, which matches no row and yields null. The model always takes an integer id, so that case is not represented.
- GraphQL `Int` is a 32-bit signed integer. Ids and author ids are unbounded here, so the numbering `length + 1` never overflows.
- The exact message and error strings (template literals) are left out. Outcomes are the variants of `Status` and `Failure`, each carrying the id where the message does.
- The `bookAdded` subscription, `PubSub` delivery and `asyncIterator` are library code for concurrent fan-out. Publishing is an append to the ghost outbox.
- The server's construction, `listen`, the request context and console logging (apolloserver.js:105-113) are network and I/O plumbing.
- `Query.Book` is declared in the event service's type definitions but has no resolver, so it is not modelled.
- Concurrent requests are not modelled, and neither is the race on `length + 1` between them. Every resolver call is one atomic step.
- schema.js, the static users list, is not part of this model.
- ApolloServer.Server.AddBook: requires `Valid()`, the invariant that every state reached from the seed satisfies. The source places no demand on its callers.
