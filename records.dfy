/** Records shared by both catalog services: the Book and Author rows, the
    outcome types of the resolvers, and the array operations the resolvers
    are built from (findIndex, find, splice) specialised to the two tables.
    Tables are insertion-ordered sequences; ids are NOT unique in general,
    so every lookup means "the first row whose id matches".
    The scans are written once per table, as the source calls `findIndex`
    once per table; the two copies are deliberately identical. */
module Records {

  datatype Option<T> = None | Some(value: T)

  datatype Book = Book(id: int, name: string, authorId: int)

  datatype Author = Author(id: int, name: string)

  /** What a resolver throws. */
  datatype Failure =
    | BookNotFound(id: int)
    | AuthorNotFound(id: int)
    | AuthorHasBooks

  /** A resolver that either returns a value or throws. */
  datatype Result<T> = Ok(value: T) | Err(failure: Failure)

  /** `books.findIndex(b => b.id === id)`: the first position holding `id`, or -1. */
  function IndexOfBook(books: seq<Book>, id: int): (r: int)
    ensures -1 <= r < |books|
    ensures r == -1 <==> forall i :: 0 <= i < |books| ==> books[i].id != id
    ensures r != -1 ==> books[r].id == id && forall i :: 0 <= i < r ==> books[i].id != id
  {
    if |books| == 0 then -1
    else if books[0].id == id then 0
    else
      var k := IndexOfBook(books[1..], id);
      if k == -1 then -1 else k + 1
  }

  /** `authors.findIndex(a => a.id === id)`: the first position holding `id`, or -1. */
  function IndexOfAuthor(authors: seq<Author>, id: int): (r: int)
    ensures -1 <= r < |authors|
    ensures r == -1 <==> forall i :: 0 <= i < |authors| ==> authors[i].id != id
    ensures r != -1 ==> authors[r].id == id && forall i :: 0 <= i < r ==> authors[i].id != id
  {
    if |authors| == 0 then -1
    else if authors[0].id == id then 0
    else
      var k := IndexOfAuthor(authors[1..], id);
      if k == -1 then -1 else k + 1
  }

  /** `authors.find(a => a.id === id)`: the first author holding `id`, if any. */
  function FindAuthor(authors: seq<Author>, id: int): (r: Option<Author>)
    ensures r.None? <==> !HasAuthor(authors, id)
    ensures r.Some? ==> r.value.id == id && r.value in authors
    ensures r.Some? ==> exists i :: 0 <= i < |authors| && authors[i] == r.value
                          && forall j :: 0 <= j < i ==> authors[j].id != id
  {
    var i := IndexOfAuthor(authors, id);
    if i == -1 then None else Some(authors[i])
  }

  /** An appended author is the row `findIndex` reaches for its id exactly
      when no earlier author already carries that id; `find` then returns it. */
  lemma {:induction false} FindAppendedAuthor(authors: seq<Author>, a: Author)
    ensures IndexOfAuthor(authors + [a], a.id) == |authors| <==> forall c :: c in authors ==> c.id != a.id
    ensures (forall c :: c in authors ==> c.id != a.id) ==> FindAuthor(authors + [a], a.id) == Some(a)
  {
    var s := authors + [a];
    if forall c :: c in authors ==> c.id != a.id {
      forall i | 0 <= i < |authors| ensures s[i].id != a.id {
        assert s[i] == authors[i];
      }
      assert s[|authors|] == a;
    } else {
      var c :| c in authors && c.id == a.id;
      var j :| 0 <= j < |authors| && authors[j] == c;
      assert s[j].id == a.id;
    }
  }

  /** `s.splice(i, 1)`: the row at `i` removed, the others kept in order. */
  function RemoveAt<T>(s: seq<T>, i: int): (r: seq<T>)
    requires 0 <= i < |s|
    ensures |r| == |s| - 1
    ensures forall j :: 0 <= j < i ==> r[j] == s[j]
    ensures forall j :: i <= j < |r| ==> r[j] == s[j + 1]
  {
    s[..i] + s[i + 1..]
  }

  /** Splicing out position `i` removes exactly one copy of `s[i]` and nothing else. */
  lemma RemoveAtContents<T>(s: seq<T>, i: int)
    requires 0 <= i < |s|
    ensures multiset(RemoveAt(s, i)) + multiset{s[i]} == multiset(s)
  {
    assert s == s[..i] + [s[i]] + s[i + 1..];
  }

  /** Some author in the table carries `id`. */
  predicate HasAuthor(authors: seq<Author>, id: int) {
    exists a :: a in authors && a.id == id
  }

  /** The intended referential invariant: every book names an existing author. */
  predicate AllReferenced(books: seq<Book>, authors: seq<Author>) {
    forall b :: b in books ==> HasAuthor(authors, b.authorId)
  }

  /** Appending a book keeps the invariant exactly when its author exists:
      neither service validates `authorId`, so an append can create a
      dangling reference. */
  lemma AppendBookReferences(books: seq<Book>, authors: seq<Author>, b: Book)
    ensures AllReferenced(books, authors) ==>
              (AllReferenced(books + [b], authors) <==> HasAuthor(authors, b.authorId))
  {
  }

  /** Replacing row `i` by `b` keeps the invariant exactly when `b`'s author
      exists. */
  lemma ReplaceBookReferences(books: seq<Book>, authors: seq<Author>, i: int, b: Book)
    requires 0 <= i < |books|
    ensures AllReferenced(books, authors) ==>
              (AllReferenced(books[i := b], authors) <==> HasAuthor(authors, b.authorId))
  {
    var after := books[i := b];
    assert after[i] == b;
    forall c | c in after && AllReferenced(books, authors) && HasAuthor(authors, b.authorId)
      ensures HasAuthor(authors, c.authorId)
    {
      var j :| 0 <= j < |after| && after[j] == c;
      if j != i {
        assert books[j] == c;
      }
    }
  }

  /** Removing a book never creates a dangling reference. */
  lemma RemoveBookReferences(books: seq<Book>, authors: seq<Author>, i: int)
    requires 0 <= i < |books|
    ensures AllReferenced(books, authors) ==> AllReferenced(RemoveAt(books, i), authors)
  {
  }

  /** Appending an author never creates a dangling reference. */
  lemma AppendAuthorReferences(books: seq<Book>, authors: seq<Author>, a: Author)
    ensures AllReferenced(books, authors) ==> AllReferenced(books, authors + [a])
  {
  }

  /** Replacing an author by a record with the same id keeps the invariant. */
  lemma ReplaceAuthorReferences(books: seq<Book>, authors: seq<Author>, i: int, a: Author)
    requires 0 <= i < |authors|
    requires a.id == authors[i].id
    ensures AllReferenced(books, authors) ==> AllReferenced(books, authors[i := a])
  {
    var after := authors[i := a];
    forall c | c in books && AllReferenced(books, authors) ensures HasAuthor(after, c.authorId) {
      var w :| w in authors && w.id == c.authorId;
      var j :| 0 <= j < |authors| && authors[j] == w;
      if j == i {
        assert after[i] == a;
      } else {
        assert after[j] == w;
      }
    }
  }

  /** Removing an author that no book names keeps the invariant. */
  lemma RemoveUnreferencedAuthor(books: seq<Book>, authors: seq<Author>, i: int)
    requires 0 <= i < |authors|
    requires forall b :: b in books ==> b.authorId != authors[i].id
    ensures AllReferenced(books, authors) ==> AllReferenced(books, RemoveAt(authors, i))
  {
  }

  /** An appended book is what `findIndex` reaches for its id exactly when no
      earlier book already carries that id. */
  lemma {:induction false} IndexOfAppendedBook(books: seq<Book>, b: Book)
    ensures IndexOfBook(books + [b], b.id) == |books| <==> forall c :: c in books ==> c.id != b.id
  {
    var s := books + [b];
    if forall c :: c in books ==> c.id != b.id {
      forall i | 0 <= i < |books| ensures s[i].id != b.id {
        assert s[i] == books[i];
      }
      assert s[|books|] == b;
    } else {
      var c :| c in books && c.id == b.id;
      var j :| 0 <= j < |books| && books[j] == c;
      assert s[j].id == b.id;
    }
  }
}
