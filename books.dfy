/** The records and messages of the bookshelf API: a stored book, the
    request payloads and queries, and the response envelope the handlers
    build (`{status, message?, data?}` with an HTTP status code). */
module Books {
  import opened Wrappers

  /** A stored book. Every field the client may leave out is an `Option`,
      since the handlers copy an `undefined` payload field as it is; `name`
      is never `undefined` once a book is stored. */
  datatype Book = Book(
    id: string,
    name: string,
    year: Option<int>,
    author: Option<string>,
    summary: Option<string>,
    publisher: Option<string>,
    pageCount: Option<int>,
    readPage: Option<int>,
    finished: bool,
    reading: Option<bool>,
    insertedAt: string,
    updateAt: string)

  /** The request body of POST /books and PUT /books/{id}. */
  datatype Payload = Payload(
    name: Option<string>,
    year: Option<int>,
    author: Option<string>,
    summary: Option<string>,
    publisher: Option<string>,
    pageCount: Option<int>,
    readPage: Option<int>,
    reading: Option<bool>)

  /** The query string of GET /books. */
  datatype Query = Query(name: Option<string>, reading: Option<string>, finished: Option<string>)

  /** The `{id, name, publisher}` projection returned by the list handler. */
  datatype BookSummary = BookSummary(id: string, name: string, publisher: Option<string>)

  datatype Status = Success | Fail | Error

  datatype Data =
    | BookId(bookId: string)
    | BookList(books: seq<BookSummary>)
    | BookDetail(book: Book)

  datatype Response = Response(code: int, status: Status, message: Option<string>, data: Option<Data>)

  const AddNoNameMessage := "Gagal menambahkan buku. Mohon isi nama buku"
  const AddReadPageMessage := "Gagal menambahkan buku. readPage tidak boleh lebih besar dari pageCount"
  const AddedMessage := "Buku berhasil ditambahkan"
  const AddFailedMessage := "Buku gagal ditambahkan"
  const NotFoundMessage := "Buku tidak ditemukan"
  const EditNoNameMessage := "Gagal memperbarui buku. Mohon isi nama buku"
  const EditReadPageMessage := "Gagal memperbarui buku. readPage tidak boleh lebih besar dari pageCount"
  const EditedMessage := "Buku berhasil diperbarui"
  const EditNotFoundMessage := "Gagal memperbarui buku. Id tidak ditemukan"
  const DeletedMessage := "Buku berhasil dihapus"
  const DeleteNotFoundMessage := "Buku gagal dihapus. Id tidak ditemukan"

  /** A response without data: the failure envelopes and the edit and
      delete successes. */
  function Plain(code: int, status: Status, message: string): Response
  {
    Response(code, status, Some(message), None)
  }

  /** JavaScript's `pageCount < readPage`: a comparison with `undefined` is
      false, so only two present numbers can reject a payload. */
  predicate ReadPageExceeds(pageCount: Option<int>, readPage: Option<int>)
  {
    pageCount.Some? && readPage.Some? && pageCount.value < readPage.value
  }

  /** A record as the add and edit handlers write it: its page numbers
      passed the check and `finished` is derived from them. */
  predicate WellFormed(b: Book)
  {
    !ReadPageExceeds(b.pageCount, b.readPage) && b.finished == (b.pageCount == b.readPage)
  }

  predicate IdsUnique(s: seq<Book>)
  {
    forall i, j :: 0 <= i < j < |s| ==> s[i].id != s[j].id
  }

  predicate HasBook(s: seq<Book>, id: string)
  {
    exists i :: 0 <= i < |s| && s[i].id == id
  }

  /** What the handlers keep true of the table: unique ids and well-formed
      records. */
  predicate StoreInvariant(s: seq<Book>)
  {
    IdsUnique(s) && forall i :: 0 <= i < |s| ==> WellFormed(s[i])
  }

  /** `books.findIndex((book) => book.id === id)`. */
  function IndexOf(s: seq<Book>, id: string): (r: int)
    ensures -1 <= r < |s|
    ensures r >= 0 ==> s[r].id == id && forall j :: 0 <= j < r ==> s[j].id != id
    ensures r == -1 <==> !HasBook(s, id)
    decreases |s|
  {
    if s == [] then -1
    else if s[0].id == id then 0
    else
      var k := IndexOf(s[1..], id);
      assert forall j :: 0 < j < |s| ==> s[j] == s[1..][j - 1];
      if k == -1 then -1 else k + 1
  }
}
