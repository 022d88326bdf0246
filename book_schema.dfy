/** The CRUD catalog service: two module-level tables of books and authors
    that the mutation resolvers change in place (push, index assignment,
    splice), and query and field resolvers that read them with find and
    filter. The tables are the fields of `Store`; a pure resolver is a
    function of the table(s) it reads. */
module BookSchema {
  import opened Records

  /** What `deleteBook` and `deleteAuthor` return as a message string instead
      of throwing. */
  datatype Status =
    | BookDeleted(id: int)
    | BookMissing(id: int)
    | AuthorDeleted(id: int)
    | AuthorMissing(id: int)

  /** The twelve books the service starts with. */
  function SeedBooks(): (r: seq<Book>)
    ensures |r| == 12
    ensures forall i :: 0 <= i < |r| ==> r[i].id == i + 1 && 1 <= r[i].authorId <= 3
  {
    [ Book(1, "Harry Potter and the Chamber of Secrets", 1),
      Book(2, "The Lord of the Rings: The Fellowship of the Ring", 2),
      Book(3, "The Catcher in the Rye", 1),
      Book(4, "To Kill a Mockingbird", 3),
      Book(5, "The Great Gatsby", 2),
      Book(6, "1984", 1),
      Book(7, "Pride and Prejudice", 2),
      Book(8, "The Hobbit", 2),
      Book(9, "Little Women", 3),
      Book(10, "Animal Farm", 1),
      Book(11, "Moby-Dick", 2),
      Book(12, "The Adventures of Huckleberry Finn", 1) ]
  }

  /** The three authors the service starts with. */
  function SeedAuthors(): (r: seq<Author>)
    ensures |r| == 3
    ensures forall i :: 0 <= i < |r| ==> r[i].id == i + 1
  {
    [ Author(1, "J.K. Rowling"),
      Author(2, "J.R.R. Tolkien"),
      Author(3, "Harper Lee") ]
  }

  /** Every seed book names one of the seed authors. */
  lemma SeedReferenced()
    ensures AllReferenced(SeedBooks(), SeedAuthors())
  {
    var authors := SeedAuthors();
    forall b | b in SeedBooks() ensures HasAuthor(authors, b.authorId) {
      assert authors[b.authorId - 1].id == b.authorId;
    }
  }

  /** Query `book(id)`: the first book with that id, or none. */
  function BookQuery(books: seq<Book>, id: int): (r: Option<Book>)
    ensures r.None? <==> forall b :: b in books ==> b.id != id
    ensures r.Some? ==> r.value.id == id
    ensures r.Some? ==> exists i :: 0 <= i < |books| && books[i] == r.value
                          && forall j :: 0 <= j < i ==> books[j].id != id
  {
    var i := IndexOfBook(books, id);
    if i == -1 then None else Some(books[i])
  }

  /** Query `books`: the table itself, every row in store order. */
  function BooksQuery(books: seq<Book>): (r: seq<Book>)
    ensures r == books
  {
    books
  }

  /** Query `authors`, which resolves against the BOOKS table: a client
      receives one entry per book, read through the Author type. */
  function AuthorsQuery(books: seq<Book>): (r: seq<Author>)
    ensures |r| == |books|
    ensures forall i :: 0 <= i < |r| ==> r[i].id == books[i].id && r[i].name == books[i].name
  {
    seq(|books|, i requires 0 <= i < |books| => Author(books[i].id, books[i].name))
  }

  /** On the seed tables the `authors` query lists twelve books, not the
      three authors. */
  lemma AuthorsQueryListsBooks()
    ensures |AuthorsQuery(SeedBooks())| == 12 != |SeedAuthors()|
    ensures AuthorsQuery(SeedBooks())[5] == Author(6, "1984")
  {
  }

  /** Field `Book.author`: the first author whose id is the book's authorId,
      or none; a dangling authorId is not an error here. */
  function BookAuthor(authors: seq<Author>, book: Book): (r: Option<Author>)
    ensures r.None? <==> !HasAuthor(authors, book.authorId)
    ensures r.Some? ==> r.value.id == book.authorId
    ensures r.Some? ==> r.value == authors[IndexOfAuthor(authors, book.authorId)]
  {
    FindAuthor(authors, book.authorId)
  }

  /** Field `Author.books`: the books naming this author, in store order. */
  function AuthorBooks(books: seq<Book>, author: Author): (r: seq<Book>)
    ensures |r| <= |books|
    ensures forall b :: b in r ==> b in books && b.authorId == author.id
    ensures forall b :: b in books && b.authorId == author.id ==> b in r
  {
    if books == [] then []
    else
      var rest := AuthorBooks(books[1..], author);
      if books[0].authorId == author.id then [books[0]] + rest else rest
  }

  /** Filtering distributes over concatenation: the result keeps store order. */
  lemma {:induction false} AuthorBooksAppend(xs: seq<Book>, ys: seq<Book>, author: Author)
    ensures AuthorBooks(xs + ys, author) == AuthorBooks(xs, author) + AuthorBooks(ys, author)
  {
    if xs != [] {
      assert (xs + ys)[1..] == xs[1..] + ys;
      AuthorBooksAppend(xs[1..], ys, author);
    } else {
      assert xs + ys == ys;
    }
  }

  /** Filtering keeps every matching row as often as it occurs, and no other. */
  lemma {:induction false} AuthorBooksCount(books: seq<Book>, author: Author, b: Book)
    ensures multiset(AuthorBooks(books, author))[b]
            == if b.authorId == author.id then multiset(books)[b] else 0
  {
    if books != [] {
      AuthorBooksCount(books[1..], author, b);
      assert books == [books[0]] + books[1..];
    }
  }

  /** `books.some(b => b.authorId === authorId)`. */
  function AnyBookBy(books: seq<Book>, authorId: int): (r: bool)
    ensures r <==> exists b :: b in books && b.authorId == authorId
  {
    if books == [] then false
    else books[0].authorId == authorId || AnyBookBy(books[1..], authorId)
  }

  /** An author has books exactly when the `Author.books` field is non-empty. */
  lemma AnyBookByMeansAuthorBooks(books: seq<Book>, author: Author)
    ensures AnyBookBy(books, author.id) <==> AuthorBooks(books, author) != []
  {
  }

  /** The two tables of the service. */
  class Store {
    var books: seq<Book>
    var authors: seq<Author>

    /** The state at process start: the seed tables. */
    constructor ()
      ensures books == SeedBooks() && authors == SeedAuthors()
      ensures AllReferenced(books, authors)
    {
      books := SeedBooks();
      authors := SeedAuthors();
      SeedReferenced();
    }

    /** Mutation `addBook`: appends a book numbered one past the current
        length; the author is not checked. */
    method AddBook(name: string, authorId: int) returns (book: Book)
      modifies this
      ensures book == Book(|old(books)| + 1, name, authorId)
      ensures books == old(books) + [book]
      ensures authors == old(authors)
      ensures old(AllReferenced(books, authors)) ==>
                (AllReferenced(books, authors) <==> HasAuthor(authors, authorId))
    {
      book := Book(|books| + 1, name, authorId);
      AppendBookReferences(books, authors, book);
      books := books + [book];
    }

    /** Mutation `addAuthor`: appends an author numbered one past the current
        length. */
    method AddAuthor(name: string) returns (author: Author)
      modifies this
      ensures author == Author(|old(authors)| + 1, name)
      ensures authors == old(authors) + [author]
      ensures books == old(books)
      ensures old(AllReferenced(books, authors)) ==> AllReferenced(books, authors)
    {
      author := Author(|authors| + 1, name);
      AppendAuthorReferences(books, authors, author);
      authors := authors + [author];
    }

    /** Mutation `updateBook`: replaces the whole record at the first index
        with that id, or throws when no book has it. */
    method UpdateBook(id: int, name: string, authorId: int) returns (r: Result<Book>)
      modifies this
      ensures authors == old(authors)
      ensures IndexOfBook(old(books), id) == -1 ==>
                r == Err(BookNotFound(id)) && books == old(books)
      ensures IndexOfBook(old(books), id) != -1 ==>
                r == Ok(Book(id, name, authorId))
                && books == old(books)[IndexOfBook(old(books), id) := Book(id, name, authorId)]
      ensures old(AllReferenced(books, authors)) && r.Ok? ==>
                (AllReferenced(books, authors) <==> HasAuthor(authors, authorId))
    {
      var i := IndexOfBook(books, id);
      if i == -1 {
        return Err(BookNotFound(id));
      }
      ReplaceBookReferences(books, authors, i, Book(id, name, authorId));
      books := books[i := Book(id, name, authorId)];
      r := Ok(books[i]);
    }

    /** Mutation `updateAuthor`: replaces the whole record at the first index
        with that id, or throws when no author has it. */
    method UpdateAuthor(id: int, name: string) returns (r: Result<Author>)
      modifies this
      ensures books == old(books)
      ensures IndexOfAuthor(old(authors), id) == -1 ==>
                r == Err(AuthorNotFound(id)) && authors == old(authors)
      ensures IndexOfAuthor(old(authors), id) != -1 ==>
                r == Ok(Author(id, name))
                && authors == old(authors)[IndexOfAuthor(old(authors), id) := Author(id, name)]
      ensures old(AllReferenced(books, authors)) ==> AllReferenced(books, authors)
    {
      var i := IndexOfAuthor(authors, id);
      if i == -1 {
        return Err(AuthorNotFound(id));
      }
      ReplaceAuthorReferences(books, authors, i, Author(id, name));
      authors := authors[i := Author(id, name)];
      r := Ok(authors[i]);
    }

    /** Mutation `deleteBook`: splices out the first book with that id, or
        reports that there is none. */
    method DeleteBook(id: int) returns (s: Status)
      modifies this
      ensures authors == old(authors)
      ensures IndexOfBook(old(books), id) == -1 ==> s == BookMissing(id) && books == old(books)
      ensures IndexOfBook(old(books), id) != -1 ==>
                s == BookDeleted(id) && books == RemoveAt(old(books), IndexOfBook(old(books), id))
      ensures old(AllReferenced(books, authors)) ==> AllReferenced(books, authors)
    {
      var i := IndexOfBook(books, id);
      if i == -1 {
        return BookMissing(id);
      }
      RemoveBookReferences(books, authors, i);
      books := RemoveAt(books, i);
      s := BookDeleted(id);
    }

    /** Mutation `deleteAuthor`: reports a missing id, throws while some book
        still names the author, and otherwise splices the author out. */
    method DeleteAuthor(id: int) returns (r: Result<Status>)
      modifies this
      ensures books == old(books)
      ensures IndexOfAuthor(old(authors), id) == -1 ==>
                r == Ok(AuthorMissing(id)) && authors == old(authors)
      ensures IndexOfAuthor(old(authors), id) != -1 && AnyBookBy(old(books), id) ==>
                r == Err(AuthorHasBooks) && authors == old(authors)
      ensures IndexOfAuthor(old(authors), id) != -1 && !AnyBookBy(old(books), id) ==>
                r == Ok(AuthorDeleted(id))
                && authors == RemoveAt(old(authors), IndexOfAuthor(old(authors), id))
      ensures old(AllReferenced(books, authors)) ==> AllReferenced(books, authors)
    {
      var i := IndexOfAuthor(authors, id);
      if i == -1 {
        return Ok(AuthorMissing(id));
      }
      var author := authors[i];
      if AnyBookBy(books, author.id) {
        return Err(AuthorHasBooks);
      }
      RemoveUnreferencedAuthor(books, authors, i);
      authors := RemoveAt(authors, i);
      r := Ok(AuthorDeleted(id));
    }
  }

  /** Ids are not unique: after `deleteBook(1)` on the seed, `addBook` numbers
      the new book 12 again, and `book(12)` still finds the old twelfth book. */
  method DuplicateBookIdAfterDelete() returns (status: Status, added: Book, found: Option<Book>)
    ensures status == BookDeleted(1)
    ensures added.id == 12
    ensures found == Some(Book(12, "The Adventures of Huckleberry Finn", 1))
    ensures found != Some(added)
  {
    var store := new Store();
    status := store.DeleteBook(1);
    added := store.AddBook("Dune", 2);
    found := BookQuery(store.books, 12);
    assert store.books[10] == Book(12, "The Adventures of Huckleberry Finn", 1);
  }

  /** When no earlier book carries the id `addBook` assigns, `book(id)`
      returns the book just added. */
  lemma AddedBookIsFound(books: seq<Book>, name: string, authorId: int)
    requires forall b :: b in books ==> b.id != |books| + 1
    ensures BookQuery(books + [Book(|books| + 1, name, authorId)], |books| + 1)
            == Some(Book(|books| + 1, name, authorId))
  {
  }

  /** From the seed, `addAuthor("X")` followed by `author(4)` returns "X". */
  method AddAuthorRoundTrip() returns (author: Author, found: Option<Author>)
    ensures author.id == 4
    ensures found.Some? && found.value.name == "X"
  {
    var store := new Store();
    author := store.AddAuthor("X");
    found := FindAuthor(store.authors, author.id);
    FindAppendedAuthor(SeedAuthors(), author);
  }
}
