/**
 * routers/book_api.py: the five CRUD handlers over the `books` collection. The queries are
 * functions of the collection's value; the writers are methods on the shared store object.
 */
module BookApi {
  import opened Schema
  import opened Collection
  import opened Database

  /** A handler's answer: a value, or the `HTTPException` it raises. */
  datatype HttpResult<T> = Ok(value: T) | HttpError(status: nat, detail: string)

  /** `HTTPException(status_code=404, detail="Book not found")` */
  function NotFound<T>(): HttpResult<T>
  {
    HttpError(404, "Book not found")
  }

  const DeletedMessage: string := "Book deleted successfully"

  /** A stored document as the API shows it: `{"id": str(book["_id"]), **book}`. */
  function InDB(d: Doc): BookInDB
  {
    WithId(d.id, d.book)
  }

  /** `get_books()`: every stored document, in natural order, with its identifier. */
  function GetBooks(s: State): (r: seq<BookInDB>)
    ensures |r| == |s.docs|
  {
    seq(|s.docs|, i requires 0 <= i < |s.docs| => InDB(s.docs[i]))
  }

  /** `get_book(book_id)`: the document with that identifier, or 404 when there is none. */
  function GetBook(s: State, id: Id): (r: HttpResult<BookInDB>)
    ensures r.Ok? <==> exists d :: d in s.docs && d.id == id
    ensures r.Ok? ==> r.value.id == id && Doc(id, Book(r.value.title, r.value.price, r.value.availability)) in s.docs
    ensures r.HttpError? ==> r == NotFound()
  {
    match FindId(s.docs, id)
    case Some(i) => Ok(InDB(s.docs[i]))
    case None => NotFound()
  }

  /**
   * The listing and the single lookup agree: every listed entry is what `get_book` answers
   * for its identifier, and every book `get_book` finds is listed.
   */
  lemma GetBooksAgreesWithGetBook(s: State)
    requires Valid(s)
    ensures forall e :: e in GetBooks(s) ==> GetBook(s, e.id) == Ok(e)
    ensures forall id :: GetBook(s, id).Ok? ==> GetBook(s, id).value in GetBooks(s)
  {
    var all := GetBooks(s);
    forall e | e in all ensures GetBook(s, e.id) == Ok(e) {
      var i :| 0 <= i < |all| && all[i] == e;
      assert FindId(s.docs, e.id) == Some(i);
    }
    forall id | GetBook(s, id).Ok? ensures GetBook(s, id).value in all {
      var i := FindId(s.docs, id).value;
      assert all[i] == GetBook(s, id).value;
    }
  }

  /**
   * After `insert_one` the new identifier was not in use, `get_book` finds the created book
   * under it, and every other identifier answers as before.
   */
  lemma CreateThenGet(s: State, b: Book)
    requires Valid(s)
    ensures GetBook(s, s.next) == NotFound()
    ensures GetBook(Insert(s, b), s.next) == Ok(WithId(s.next, b))
    ensures forall id :: id != s.next ==> GetBook(Insert(s, b), id) == GetBook(s, id)
  {
    var r := Insert(s, b);
    forall id | id != s.next ensures GetBook(r, id) == GetBook(s, id) {
      if FindId(s.docs, id).Some? {
        assert forall j :: 0 <= j < |s.docs| ==> r.docs[j] == s.docs[j];
        assert FindId(r.docs, id) == FindId(s.docs, id);
      } else {
        assert FindId(r.docs, id).None?;
      }
    }
  }

  /**
   * `create_book` does not look at titles: creating a book whose title is already stored
   * leaves two documents with that title, whatever invariant the loader kept before.
   */
  lemma CreateCanDuplicateTitle(s: State, b: Book)
    requires FindTitle(s.docs, b.title).Some?
    ensures !UniqueTitles(Insert(s, b).docs)
  {
    var i := FindTitle(s.docs, b.title).value;
    var r := Insert(s, b);
    assert r.docs[i].book.title == r.docs[|s.docs|].book.title;
  }

  /** Two creates of the same payload give two documents with distinct identifiers. */
  lemma CreateTwiceGivesTwoDocs(s: State, b: Book)
    requires Valid(s)
    ensures var r := Insert(Insert(s, b), b);
      |r.docs| == |s.docs| + 2 && r.docs[|s.docs|].book == r.docs[|s.docs| + 1].book == b
      && r.docs[|s.docs|].id != r.docs[|s.docs| + 1].id && !UniqueTitles(r.docs)
  {
    var r := Insert(Insert(s, b), b);
    assert r.docs[|s.docs|].book.title == r.docs[|s.docs| + 1].book.title;
  }

  /**
   * After a successful `$set` by identifier `get_book` answers the new fields under the same
   * identifier, and every other identifier answers as before.
   */
  lemma UpdateThenGet(s: State, id: Id, b: Book)
    requires Valid(s)
    requires FindId(s.docs, id).Some?
    ensures GetBook(SetById(s, id, b), id) == Ok(WithId(id, b))
    ensures forall other :: other != id ==> GetBook(SetById(s, id, b), other) == GetBook(s, other)
  {
    var r := SetById(s, id, b);
    assert FindId(r.docs, id) == FindId(s.docs, id);
    forall other | other != id ensures GetBook(r, other) == GetBook(s, other) {
      if FindId(s.docs, other).Some? {
        assert FindId(r.docs, other) == FindId(s.docs, other);
      } else {
        assert FindId(r.docs, other).None?;
      }
    }
  }

  /** After a delete `get_book` no longer finds the identifier; other identifiers are unaffected. */
  lemma DeleteThenGet(s: State, id: Id)
    requires Valid(s)
    ensures GetBook(DeleteById(s, id), id) == NotFound()
    ensures forall other :: other != id ==> GetBook(DeleteById(s, id), other) == GetBook(s, other)
  {
    var r := DeleteById(s, id);
    forall other | other != id ensures GetBook(r, other) == GetBook(s, other) {
      if FindId(s.docs, other).Some? {
        var d := s.docs[FindId(s.docs, other).value];
        assert d in r.docs;
        var j := FindId(r.docs, other).value;
        assert r.docs[j] in s.docs;
      } else {
        assert FindId(r.docs, other).None?;
      }
    }
  }

  /** `create_book(book)`: insert the payload and answer it with the new identifier. */
  method CreateBook(store: BookStore, book: Book) returns (r: BookInDB)
    requires store.Valid()
    modifies store
    ensures store.Valid()
    ensures store.Contents() == Insert(old(store.Contents()), book)
    ensures r == WithId(old(store.nextId), book)
    ensures GetBook(old(store.Contents()), r.id) == NotFound()
    ensures GetBook(store.Contents(), r.id) == Ok(r)
  {
    ghost var before := store.Contents();
    var insertedId := store.InsertOne(book);
    r := WithId(insertedId, book);
    CreateThenGet(before, book);
  }

  /** `update_book(book_id, book)`: `$set` the payload on that document, or answer 404. */
  method UpdateBook(store: BookStore, bookId: Id, book: Book) returns (r: HttpResult<BookInDB>)
    requires store.Valid()
    modifies store
    ensures store.Valid()
    ensures store.Contents() == SetById(old(store.Contents()), bookId, book)
    ensures r.HttpError? <==> GetBook(old(store.Contents()), bookId).HttpError?
    ensures r.HttpError? ==> r == NotFound() && store.Contents() == old(store.Contents())
    ensures r.Ok? ==> r == Ok(WithId(bookId, book)) && GetBook(store.Contents(), bookId) == r
  {
    ghost var before := store.Contents();
    var matchedCount := store.UpdateOneById(bookId, book);
    if matchedCount == 0 {
      r := NotFound();
      return;
    }
    r := Ok(WithId(bookId, book));
    UpdateThenGet(before, bookId, book);
  }

  /** `delete_book(book_id)`: remove that document and confirm, or answer 404. */
  method DeleteBook(store: BookStore, bookId: Id) returns (r: HttpResult<string>)
    requires store.Valid()
    modifies store
    ensures store.Valid()
    ensures store.Contents() == DeleteById(old(store.Contents()), bookId)
    ensures r.HttpError? <==> GetBook(old(store.Contents()), bookId).HttpError?
    ensures r.HttpError? ==> r == NotFound() && store.Contents() == old(store.Contents())
    ensures r.Ok? ==> r.value == DeletedMessage
    ensures GetBook(store.Contents(), bookId) == NotFound()
  {
    ghost var before := store.Contents();
    var deletedCount := store.DeleteOne(bookId);
    DeleteThenGet(before, bookId);
    if deletedCount == 0 {
      r := NotFound();
      return;
    }
    r := Ok(DeletedMessage);
  }
}
