/** What a client of the table can conclude from the handlers' contracts
    alone: the create, fetch, update and delete round of a single book. */
module Lifecycle {
  import opened Wrappers
  import opened JsArray
  import opened Books
  import opened Handler

  /** A book added under a fresh id can be fetched with its derived
      `finished` flag, edited in place, deleted once, and is gone after;
      the table ends as it began. */
  method AddEditDelete(store: Store, p: Payload, p2: Payload, id: string, t1: string, t2: string)
    requires store.Valid() && !HasBook(store.books, id)
    requires p.name.Some? && !ReadPageExceeds(p.pageCount, p.readPage)
    requires p2.name.Some? && !ReadPageExceeds(p2.pageCount, p2.readPage)
    modifies store
    ensures store.Valid() && store.books == old(store.books)
  {
    var added := store.AddBook(p, id, t1);
    assert added.code == 201 && added.data == Some(BookId(id));
    var book := store.books[|old(store.books)|];
    AppendFound(old(store.books), book);
    var got := GetBook(store.books, id);
    assert got.code == 200 && got.data.value.book.finished == (p.pageCount == p.readPage);

    var edited := store.EditBook(id, p2, t2);
    assert edited.code == 200;
    var newBook := store.books[|old(store.books)|];
    ReplacedFound(old(store.books) + [book], |old(store.books)|, newBook);
    got := GetBook(store.books, id);
    assert got.data.value.book.insertedAt == t1 && got.data.value.book.updateAt == t2;

    var deleted := store.DeleteBook(id);
    assert deleted.code == 200;
    RemoveLast(old(store.books), newBook);
    got := GetBook(store.books, id);
    assert got == Plain(404, Fail, NotFoundMessage);
    deleted := store.DeleteBook(id);
    assert deleted == Plain(404, Fail, DeleteNotFoundMessage);
  }

  /** The request pair `{name: "A", year: 2021, author: "x", summary: "s",
      publisher: "p", pageCount: 100, readPage: 100, reading: false}`
      followed by a fetch, a delete and a second fetch. */
  method FinishedExample(id: string, t: string)
  {
    var store := new Store();
    var p := Payload(Some("A"), Some(2021), Some("x"), Some("s"), Some("p"), Some(100), Some(100), Some(false));
    var added := store.AddBook(p, id, t);
    assert added.code == 201 && store.books[0].finished;
    AppendFound([], store.books[0]);
    var got := GetBook(store.books, id);
    assert got.code == 200 && got.data.value.book.id == id;
    var deleted := store.DeleteBook(id);
    assert deleted.code == 200 && store.books == [];
    got := GetBook(store.books, id);
    assert got.code == 404;
  }
}
