/** The catalog-with-events service: a books table that `addBook` appends to,
    an authors table no resolver changes, a `Book.author` field that throws
    on a dangling reference, and a BOOK_ADDED event published for every book
    added. Delivery to subscribers is not modelled: publishing appends the
    event to a ghost outbox, so the outbox is the history of publish calls. */
module ApolloServer {
  import opened Records

  /** The topic `addBook` publishes on. */
  const BOOK_ADDED: string := "BOOK_ADDED"

  /** One `pubsub.publish(topic, {bookAdded: book})` call. */
  datatype Event = Publish(topic: string, bookAdded: Book)

  /** An entry of the `errors` list of an `addBook` response. */
  datatype FieldError = FieldError(field: string, message: string)

  /** The `AddBookResponse` envelope. */
  datatype AddBookResponse = AddBookResponse(errors: seq<FieldError>, book: Book)

  /** The five books the service starts with. */
  function SeedBooks(): (r: seq<Book>)
    ensures |r| == 5
    ensures forall i :: 0 <= i < |r| ==> r[i].id == i + 1 && 1 <= r[i].authorId <= 3
  {
    [ Book(1, "Harry Potter and the Chamber of Secrets", 1),
      Book(2, "The Lord of the Rings: The Fellowship of the Ring", 2),
      Book(3, "The Catcher in the Rye", 1),
      Book(4, "To Kill a Mockingbird", 3),
      Book(5, "The Great Gatsby", 2) ]
  }

  /** The three authors of the service. */
  function SeedAuthors(): (r: seq<Author>)
    ensures |r| == 3
    ensures forall i :: 0 <= i < |r| ==> r[i].id == i + 1
  {
    [ Author(1, "J.K. Rowling"),
      Author(2, "J.R.R. Tolkien"),
      Author(3, "Harper Lee") ]
  }

  /** Every seed book names one of the authors. */
  lemma SeedReferenced()
    ensures AllReferenced(SeedBooks(), SeedAuthors())
  {
    var authors := SeedAuthors();
    forall b | b in SeedBooks() ensures HasAuthor(authors, b.authorId) {
      assert authors[b.authorId - 1].id == b.authorId;
    }
  }

  /** Field `Book.author`: the first author whose id is the book's authorId;
      throws when there is none, so it never yields an absent author. */
  function BookAuthor(authors: seq<Author>, book: Book): (r: Result<Author>)
    ensures r.Err? <==> !HasAuthor(authors, book.authorId)
    ensures r.Err? ==> r.failure == AuthorNotFound(book.authorId)
    ensures r.Ok? ==> r.value.id == book.authorId
    ensures r.Ok? ==> r.value == authors[IndexOfAuthor(authors, book.authorId)]
  {
    match FindAuthor(authors, book.authorId)
    case None => Err(AuthorNotFound(book.authorId))
    case Some(a) => Ok(a)
  }

  /** While every book names an existing author, `Book.author` never throws
      for a book of the table. */
  lemma ReferencedBookResolves(books: seq<Book>, authors: seq<Author>, book: Book)
    requires AllReferenced(books, authors)
    requires book in books
    ensures BookAuthor(authors, book).Ok?
  {
  }

  /** The events that `addBook` publishes for the books `added`, in order. */
  function Events(added: seq<Book>): (r: seq<Event>)
    ensures |r| == |added|
    ensures forall i :: 0 <= i < |r| ==> r[i].topic == BOOK_ADDED && r[i].bookAdded == added[i]
  {
    seq(|added|, i requires 0 <= i < |added| => Publish(BOOK_ADDED, added[i]))
  }

  /** Adding one more book adds exactly one event, at the end. */
  lemma EventsAppend(added: seq<Book>, b: Book)
    ensures Events(added + [b]) == Events(added) + [Publish(BOOK_ADDED, b)]
  {
  }

  /** Ids are gapless from 1: `findIndex` finds id k at position k - 1. */
  lemma GaplessIdsLookup(books: seq<Book>, k: int)
    requires forall i :: 0 <= i < |books| ==> books[i].id == i + 1
    requires 1 <= k <= |books|
    ensures IndexOfBook(books, k) == k - 1
  {
    var r := IndexOfBook(books, k);
    assert books[k - 1].id == k;
    assert r != -1 && books[r].id == r + 1;
  }

  class Server {
    var books: seq<Book>
    const authors: seq<Author>
    /** Every event published so far, oldest first. */
    ghost var outbox: seq<Event>

    /** The seed is kept as a prefix, ids are gapless from 1, and the outbox
        holds one BOOK_ADDED event per book added since start, in order. */
    ghost predicate Valid()
      reads this
    {
      && |SeedBooks()| <= |books|
      && books[..|SeedBooks()|] == SeedBooks()
      && (forall i :: 0 <= i < |books| ==> books[i].id == i + 1)
      && outbox == Events(books[|SeedBooks()|..])
    }

    /** The state at process start. */
    constructor ()
      ensures Valid()
      ensures books == SeedBooks() && authors == SeedAuthors() && outbox == []
      ensures AllReferenced(books, authors)
    {
      books := SeedBooks();
      authors := SeedAuthors();
      outbox := [];
      SeedReferenced();
    }

    /** Query `books`: the current table as stored. */
    function Books(): (r: seq<Book>)
      reads this
      ensures r == books
    {
      books
    }

    /** Query `authors`: the authors table, which never changes. */
    function Authors(): (r: seq<Author>)
      ensures r == authors
    {
      authors
    }

    /** Mutation `addBook`: appends a book numbered one past the current
        length without checking its author, publishes it on BOOK_ADDED, and
        returns it with the fixed error entry {field: "name", message: "bad"}. */
    method AddBook(name: string, authorId: int) returns (response: AddBookResponse)
      requires Valid()
      modifies this
      ensures Valid()
      ensures response.book == Book(|old(books)| + 1, name, authorId)
      ensures books == old(books) + [response.book]
      ensures outbox == old(outbox) + [Publish(BOOK_ADDED, response.book)]
      ensures response.errors == [FieldError("name", "bad")]
      ensures old(AllReferenced(books, authors)) ==>
                (AllReferenced(books, authors) <==> HasAuthor(authors, authorId))
    {
      var book := Book(|books| + 1, name, authorId);
      AppendBookReferences(books, authors, book);
      EventsAppend(books[|SeedBooks()|..], book);
      assert (books + [book])[|SeedBooks()|..] == books[|SeedBooks()|..] + [book];
      books := books + [book];
      outbox := outbox + [Publish(BOOK_ADDED, book)];
      response := AddBookResponse([FieldError("name", "bad")], book);
    }
  }

  /** The event service never deletes, so ids are keys: in every state
      reached from the seed no two books share an id, and id k is found at
      position k - 1. */
  lemma ReachableIdsAreKeys(server: Server)
    requires server.Valid()
    ensures forall i, j :: 0 <= i < j < |server.books| ==> server.books[i].id != server.books[j].id
    ensures forall k :: 1 <= k <= |server.books| ==> IndexOfBook(server.books, k) == k - 1
  {
    forall k | 1 <= k <= |server.books| ensures IndexOfBook(server.books, k) == k - 1 {
      GaplessIdsLookup(server.books, k);
    }
  }

  /** Adding a book whose author does not exist makes `Book.author` throw
      for it: `addBook` performs no check. */
  method DanglingAuthorAfterAdd() returns (response: AddBookResponse, author: Result<Author>)
    ensures response.book == Book(6, "Dune", 7)
    ensures author == Err(AuthorNotFound(7))
  {
    var server := new Server();
    response := server.AddBook("Dune", 7);
    author := BookAuthor(server.Authors(), response.book);
  }
}
