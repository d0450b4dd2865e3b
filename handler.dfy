/** The five request handlers of the bookshelf API over the in-memory book
    table. Listing and fetching only read the table and are functions of
    it; adding, editing and deleting change it in place and are methods of
    `Store`, the table's owner. */
module Handler {
  import opened Wrappers
  import opened JsArray
  import opened JsText
  import opened Books

  // ---------------------------------------------------------------------
  // GET /books/{id}

  function HasId(id: string): Book -> bool
  {
    (b: Book) => b.id == id
  }

  /** `books.filter((b) => b.id === id)[0]`: the first book with that id,
      or `undefined`. */
  function FirstWithId(s: seq<Book>, id: string): (r: Option<Book>)
    ensures IndexOf(s, id) == -1 ==> r == None
    ensures IndexOf(s, id) >= 0 ==> r == Some(s[IndexOf(s, id)])
  {
    var matching := Filter(s, HasId(id));
    var i := IndexOf(s, id);
    assert i >= 0 ==> matching == [s[i]] + Filter(s[i + 1..], HasId(id)) by {
      if i >= 0 { FilterFirst(s, HasId(id), i); }
    }
    if |matching| > 0 then Some(matching[0]) else None
  }

  /** getBookByIdHandler: the full record of the first book with the id
      (a plain object, which the framework sends with 200), else 404. */
  function GetBook(s: seq<Book>, id: string): (r: Response)
    ensures HasBook(s, id) ==> r == Response(200, Success, None, Some(BookDetail(s[IndexOf(s, id)])))
    ensures !HasBook(s, id) ==> r == Plain(404, Fail, NotFoundMessage)
    ensures r.code == 200 <==> HasBook(s, id)
  {
    match FirstWithId(s, id)
    case Some(book) => Response(200, Success, None, Some(BookDetail(book)))
    case None => Plain(404, Fail, NotFoundMessage)
  }

  // ---------------------------------------------------------------------
  // GET /books?name=&reading=&finished=

  /** `book.name.toLowerCase().includes(name.toLowerCase())`. */
  function NameFilter(name: string): Book -> bool
  {
    (b: Book) => Includes(Lower(b.name), Lower(name))
  }

  /** `book.reading === !!Number(reading)`; an `undefined` stored flag never
      matches. */
  function ReadingFilter(reading: string): Book -> bool
  {
    (b: Book) => b.reading == Some(StrToBool(reading))
  }

  /** `book.finished === !!Number(finished)`. */
  function FinishedFilter(finished: string): Book -> bool
  {
    (b: Book) => b.finished == StrToBool(finished)
  }

  /** A book satisfies every filter the query carries; absent filters hold. */
  predicate Matches(q: Query, b: Book)
  {
    (q.name.None? || Includes(Lower(b.name), Lower(q.name.value))) &&
    (q.reading.None? || b.reading == Some(StrToBool(q.reading.value))) &&
    (q.finished.None? || b.finished == StrToBool(q.finished.value))
  }

  function MatchFilter(q: Query): Book -> bool
  {
    (b: Book) => Matches(q, b)
  }

  /** The name filter as a predicate that holds when the field is absent. */
  function NameStage(name: Option<string>): Book -> bool
  {
    (b: Book) => name.None? || Includes(Lower(b.name), Lower(name.value))
  }

  function ReadingStage(reading: Option<string>): Book -> bool
  {
    (b: Book) => reading.None? || b.reading == Some(StrToBool(reading.value))
  }

  function FinishedStage(finished: Option<string>): Book -> bool
  {
    (b: Book) => finished.None? || b.finished == StrToBool(finished.value)
  }

  function Both(p: Book -> bool, q: Book -> bool): Book -> bool
  {
    (b: Book) => p(b) && q(b)
  }

  /** The successive filters of getAllBooksHandler, each applied only when
      its query field is present. */
  function FilteredBooks(s: seq<Book>, q: Query): seq<Book>
  {
    var byName := if q.name.Some? then Filter(s, NameFilter(q.name.value)) else s;
    var byReading := if q.reading.Some? then Filter(byName, ReadingFilter(q.reading.value)) else byName;
    if q.finished.Some? then Filter(byReading, FinishedFilter(q.finished.value)) else byReading
  }

  lemma NameStep(s: seq<Book>, name: Option<string>)
    ensures (if name.Some? then Filter(s, NameFilter(name.value)) else s) == Filter(s, NameStage(name))
  {
    if name.Some? { FilterExt(s, NameFilter(name.value), NameStage(name)); }
    else { FilterAll(s, NameStage(name)); }
  }

  lemma ReadingStep(s: seq<Book>, reading: Option<string>)
    ensures (if reading.Some? then Filter(s, ReadingFilter(reading.value)) else s) == Filter(s, ReadingStage(reading))
  {
    if reading.Some? { FilterExt(s, ReadingFilter(reading.value), ReadingStage(reading)); }
    else { FilterAll(s, ReadingStage(reading)); }
  }

  lemma FinishedStep(s: seq<Book>, finished: Option<string>)
    ensures (if finished.Some? then Filter(s, FinishedFilter(finished.value)) else s) == Filter(s, FinishedStage(finished))
  {
    if finished.Some? { FilterExt(s, FinishedFilter(finished.value), FinishedStage(finished)); }
    else { FilterAll(s, FinishedStage(finished)); }
  }

  /** The successive optional filters keep, in table order, exactly the
      books that satisfy all present filters at once. */
  lemma FilteredIsConjunction(s: seq<Book>, q: Query)
    ensures FilteredBooks(s, q) == Filter(s, MatchFilter(q))
  {
    var byName := if q.name.Some? then Filter(s, NameFilter(q.name.value)) else s;
    var byReading := if q.reading.Some? then Filter(byName, ReadingFilter(q.reading.value)) else byName;
    var p1, p2, p3 := NameStage(q.name), ReadingStage(q.reading), FinishedStage(q.finished);
    NameStep(s, q.name);
    ReadingStep(byName, q.reading);
    FinishedStep(byReading, q.finished);
    FilterFilter(s, p1, p2, Both(p1, p2));
    FilterFilter(s, Both(p1, p2), p3, MatchFilter(q));
  }

  function Project(b: Book): BookSummary
  {
    BookSummary(b.id, b.name, b.publisher)
  }

  /** getAllBooksHandler: always 200, with the projections of the matching
      books in table order. */
  function ListBooks(s: seq<Book>, q: Query): (r: Response)
    ensures r.code == 200 && r.status == Success && r.message == None
    ensures r.data == Some(BookList(Map(Filter(s, MatchFilter(q)), Project)))
  {
    FilteredIsConjunction(s, q);
    Response(200, Success, None, Some(BookList(Map(FilteredBooks(s, q), Project))))
  }

  /** A summary is listed exactly when some book of the table satisfies the
      query and projects to it. */
  lemma ListedIffMatches(s: seq<Book>, q: Query, x: BookSummary)
    ensures x in ListBooks(s, q).data.value.books <==>
            exists b :: b in s && Matches(q, b) && Project(b) == x
  {
    var kept := Filter(s, MatchFilter(q));
    var listed := ListBooks(s, q).data.value.books;
    if x in listed {
      var i :| 0 <= i < |listed| && listed[i] == x;
      assert kept[i] in kept;
    }
    if exists b :: b in s && Matches(q, b) && Project(b) == x {
      var b :| b in s && Matches(q, b) && Project(b) == x;
      assert MatchFilter(q)(b);
      assert b in kept;
      var i :| 0 <= i < |kept| && kept[i] == b;
      assert listed[i] == x;
    }
  }

  /** With no query fields, every book is listed, in table order. */
  lemma ListWithoutFilters(s: seq<Book>)
    ensures ListBooks(s, Query(None, None, None)).data == Some(BookList(Map(s, Project)))
  {
    FilterAll(s, MatchFilter(Query(None, None, None)));
  }

  /** `?reading=1&finished=0` keeps only books being read and not finished. */
  lemma ReadingUnfinished(s: seq<Book>)
    ensures forall b :: b in Filter(s, MatchFilter(Query(None, Some("1"), Some("0")))) ==>
            b.reading == Some(true) && !b.finished
  {
  }

  // ---------------------------------------------------------------------
  // Facts about the table operations used by Store below.

  /** A book appended under a fresh id is found by that id, at the end. */
  lemma AppendFound(s: seq<Book>, b: Book)
    requires !HasBook(s, b.id)
    ensures IndexOf(s + [b], b.id) == |s|
    ensures GetBook(s + [b], b.id) == Response(200, Success, None, Some(BookDetail(b)))
  {
    assert (s + [b])[|s|] == b;
    assert forall j :: 0 <= j < |s| ==> (s + [b])[j] == s[j];
  }

  /** A slot rewritten under its own id is what a lookup by that id finds,
      and the ids stay unique. */
  lemma ReplacedFound(s: seq<Book>, i: nat, b: Book)
    requires IdsUnique(s) && i < |s| && b.id == s[i].id
    ensures IdsUnique(s[i := b])
    ensures IndexOf(s[i := b], b.id) == i
    ensures GetBook(s[i := b], b.id) == Response(200, Success, None, Some(BookDetail(b)))
  {
    var r := s[i := b];
    assert forall j :: 0 <= j < |s| && j != i ==> r[j] == s[j];
    assert r[i] == b;
  }

  /** Splicing out the only book with an id leaves no book with it. */
  lemma RemovedIsGone(s: seq<Book>, i: nat)
    requires IdsUnique(s) && i < |s|
    ensures !HasBook(RemoveAt(s, i), s[i].id)
    ensures IdsUnique(RemoveAt(s, i))
  {
    var r := RemoveAt(s, i);
    forall j | 0 <= j < |r| ensures r[j].id != s[i].id {
      if j < i { assert r[j] == s[j]; } else { assert r[j] == s[j + 1]; }
    }
  }

  // ---------------------------------------------------------------------
  // POST /books, PUT /books/{id}, DELETE /books/{id}

  /** The module-level `books` array: the table the handlers share. */
  class Store {
    var books: seq<Book>

    ghost predicate Valid()
      reads this
    {
      StoreInvariant(books)
    }

    /** The table starts empty. */
    constructor ()
      ensures Valid() && books == []
    {
      books := [];
    }

    /** addBookHandler. `freshId` stands for `nanoid(16)` and `now` for the
        current time as an ISO string. */
    method AddBook(p: Payload, freshId: string, now: string) returns (r: Response)
      requires Valid()
      requires p.name.Some? && !ReadPageExceeds(p.pageCount, p.readPage) ==> !HasBook(books, freshId)
      modifies this
      ensures Valid()
      ensures p.name.None? ==>
        r == Plain(400, Fail, AddNoNameMessage) && books == old(books)
      ensures p.name.Some? && ReadPageExceeds(p.pageCount, p.readPage) ==>
        r == Plain(400, Fail, AddReadPageMessage) && books == old(books)
      ensures p.name.Some? && !ReadPageExceeds(p.pageCount, p.readPage) ==>
        r == Response(201, Success, Some(AddedMessage), Some(BookId(freshId))) &&
        books == old(books) + [Book(freshId, p.name.value, p.year, p.author, p.summary,
                                    p.publisher, p.pageCount, p.readPage,
                                    p.pageCount == p.readPage, p.reading, now, now)]
      ensures r.code == 201 ==>
        |books| == |old(books)| + 1 && books[..|old(books)|] == old(books) &&
        books[|old(books)|].id == freshId &&
        books[|old(books)|].finished == (p.pageCount == p.readPage) &&
        books[|old(books)|].insertedAt == books[|old(books)|].updateAt
    {
      if p.name.None? {
        return Plain(400, Fail, AddNoNameMessage);
      }
      if ReadPageExceeds(p.pageCount, p.readPage) {
        return Plain(400, Fail, AddReadPageMessage);
      }
      var insertedAt := now;
      var updateAt := insertedAt;
      var finished := p.pageCount == p.readPage;
      var newBook := Book(freshId, p.name.value, p.year, p.author, p.summary, p.publisher,
                          p.pageCount, p.readPage, finished, p.reading, insertedAt, updateAt);
      books := books + [newBook];
      assert HasId(freshId)(newBook) && newBook in books;
      var isSuccess := |Filter(books, HasId(freshId))| > 0;
      if isSuccess {
        r := Response(201, Success, Some(AddedMessage), Some(BookId(freshId)));
      } else {
        r := Plain(500, Error, AddFailedMessage);
      }
    }

    /** editBookByIdHandler: an unknown id is reported before the payload
        is looked at; a successful edit rewrites the first matching slot,
        keeping its `id` and `insertedAt`. */
    method EditBook(id: string, p: Payload, now: string) returns (r: Response)
      requires Valid()
      modifies this
      ensures Valid()
      ensures !HasBook(old(books), id) ==>
        r == Plain(404, Fail, EditNotFoundMessage) && books == old(books)
      ensures HasBook(old(books), id) && p.name.None? ==>
        r == Plain(400, Fail, EditNoNameMessage) && books == old(books)
      ensures HasBook(old(books), id) && p.name.Some? && ReadPageExceeds(p.pageCount, p.readPage) ==>
        r == Plain(400, Fail, EditReadPageMessage) && books == old(books)
      ensures HasBook(old(books), id) && p.name.Some? && !ReadPageExceeds(p.pageCount, p.readPage) ==>
        var i := IndexOf(old(books), id);
        var was := old(books)[i];
        r == Plain(200, Success, EditedMessage) &&
        books == old(books)[i := Book(was.id, p.name.value, p.year, p.author, p.summary,
                                      p.publisher, p.pageCount, p.readPage,
                                      p.pageCount == p.readPage, p.reading, was.insertedAt, now)]
      ensures |books| == |old(books)|
      ensures forall j :: 0 <= j < |books| && j != IndexOf(old(books), id) ==> books[j] == old(books)[j]
      ensures forall j :: 0 <= j < |books| ==>
        books[j].id == old(books)[j].id && books[j].insertedAt == old(books)[j].insertedAt
    {
      var updateAt := now;
      var index := IndexOf(books, id);
      if index != -1 {
        if p.name.None? {
          return Plain(400, Fail, EditNoNameMessage);
        }
        if ReadPageExceeds(p.pageCount, p.readPage) {
          return Plain(400, Fail, EditReadPageMessage);
        }
        var finished := p.pageCount == p.readPage;
        var was := books[index];
        books := books[index := Book(was.id, p.name.value, p.year, p.author, p.summary,
                                     p.publisher, p.pageCount, p.readPage, finished,
                                     p.reading, was.insertedAt, updateAt)];
        return Plain(200, Success, EditedMessage);
      }
      return Plain(404, Fail, EditNotFoundMessage);
    }

    /** deleteBookByIdHandler: splices out the first book with the id. */
    method DeleteBook(id: string) returns (r: Response)
      requires Valid()
      modifies this
      ensures Valid()
      ensures !HasBook(old(books), id) ==>
        r == Plain(404, Fail, DeleteNotFoundMessage) && books == old(books)
      ensures HasBook(old(books), id) ==>
        r == Plain(200, Success, DeletedMessage) &&
        books == RemoveAt(old(books), IndexOf(old(books), id))
      ensures HasBook(old(books), id) ==> !HasBook(books, id) && |books| == |old(books)| - 1
    {
      var index := IndexOf(books, id);
      if index != -1 {
        RemovedIsGone(books, index);
        books := RemoveAt(books, index);
        return Plain(200, Success, DeletedMessage);
      }
      return Plain(404, Fail, DeleteNotFoundMessage);
    }
  }
}
