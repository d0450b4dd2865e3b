# Bookshelf API: the book table and its five handlers

This project models the core of a small bookshelf HTTP API: the in-memory
table of book records (the module-level `books` array) and the five request
handlers of `src/handler.js` that create, list, fetch, update and delete
records in it. The table is an ordered sequence of `Book` records that starts
empty. A handler's reply is a `Response` value: an HTTP code (201, 200, 400,
404 or 500), a status (`success`, `fail` or `error`), an optional message and
optional data.

- `Books` (books.dfy) holds the records, payloads, queries, the response
  envelope, the exact Indonesian messages of the handlers, the store
  invariant (unique ids, `readPage` not above `pageCount`, `finished`
  derived) and `IndexOf`, the model of `findIndex`.
- `JsArray` (jsarray.dfy) and `JsText` (jstext.dfy) model the JavaScript
  library calls the handlers use: `filter`, `map`, `splice(i, 1)`,
  `toLowerCase`, `includes` and `!!Number(s)`.
- `Handler` (handler.dfy) holds the two read-only handlers as functions
  (`GetBook`, `ListBooks`) and the `Store` class. Its methods `AddBook`,
  `EditBook` and `DeleteBook` change the `books` field in place, as the
  source's `push`, index assignment and `splice` do.
- `Lifecycle` (lifecycle.dfy) is a client. It shows what follows from those
  contracts alone: add, get, edit, delete, then a second delete that reports
  404. `FinishedExample` follows one concrete book with equal page counts
  through add, fetch and delete, and is verified to be stored as finished.

Payload fields are `Option`s, because the handlers test for `undefined`. The
model follows the JavaScript meaning of the checks:
- An empty `name` passes; only an absent one is rejected.
- `pageCount < readPage` rejects only when both numbers are present.
- `finished` is `pageCount == readPage` with `Option` equality, so two
  absent page numbers give `finished == true`, as `undefined === undefined`
  does.

The code checks less than the field names suggest. An empty `name` is
accepted, since only an absent one is rejected. Absent page numbers are
never compared, so a stored record can lack `readPage <= pageCount`. The
404 message of the get handler is "Buku tidak ditemukan". The model
follows the code in all three.

The fresh id that `nanoid(16)` produces is a parameter of `AddBook`, with
the precondition that no stored book has it. That precondition applies
only to a payload that passes validation, since the source draws the id
after both checks. The ISO timestamp from
`new Date().toISOString()` is also a parameter. After the append, the add
handler filters the table by the new id. The model proves this re-check
always succeeds, so a validated add always returns 201 and the 500 branch
is unreachable (it stays in the method body, as in the source).

## Model

| member | source | states |
|---|---|---|
| Books.IndexOf | src/handler.js:149 | `findIndex` by id: -1 exactly when no book has the id, otherwise the index of the first book with it |
| JsArray.Filter | src/handler.js:57 | `filter`: an element is kept exactly when it is in the input and satisfies the predicate, never more elements than the input (order and multiplicity: FilterConcat) |
| JsArray.FilterSingleton | src/handler.js:57 | a one-element input is kept exactly when its element satisfies the predicate |
| JsArray.FilterConcat | src/handler.js:87-95 | filtering distributes over concatenation; with the one-element case this fixes input order and keeps each satisfying occurrence once |
| JsArray.FilterFilter | src/handler.js:84-95 | two successive filters equal one filter by the conjunction of their predicates |
| JsArray.FilterFirst | src/handler.js:115 | the first element a filter keeps is the first element of the input that satisfies the predicate |
| JsArray.Map | src/handler.js:100-104 | `map`: same length, element i is the function applied to input element i |
| JsArray.RemoveAt | src/handler.js:210 | `splice(i, 1)`: one shorter, elements before i unchanged, elements after i shifted down by one in their order |
| JsArray.RemoveLast | src/handler.js:55 | splicing out the element just pushed gives back the earlier table |
| JsText.Lower | src/handler.js:88 | `toLowerCase` keeps the length and lowers each ASCII letter in place |
| JsText.Includes | src/handler.js:88 | `includes` holds exactly when the needle occurs at some offset of the haystack |
| JsText.IncludesEmpty | src/handler.js:86-88 | an empty `name` query matches every name |
| JsText.StrToBool | src/handler.js:91 | `!!Number(s)` maps "0" to false and "1" to true, and is true only for a non-empty digit string |
| Handler.FirstWithId | src/handler.js:115 | `filter(...)[0]` is the book at the first matching index, or absent when no book has the id |
| Handler.GetBook | src/handler.js:113-132 | 200 with the first book with the id when there is one, else 404 "Buku tidak ditemukan"; code 200 exactly when the id is stored |
| Handler.NameStep | src/handler.js:86-89 | the name filter, applied only when the query has a name, is a filter by "absent or substring match" |
| Handler.ReadingStep | src/handler.js:90-92 | the reading filter, applied only when present, is a filter by "absent or equal to `!!Number(reading)`" |
| Handler.FinishedStep | src/handler.js:93-95 | the finished filter, applied only when present, is a filter by "absent or equal to `!!Number(finished)`" |
| Handler.FilteredIsConjunction | src/handler.js:84-95 | the three optional filters in sequence keep, in table order, exactly the books satisfying every present filter |
| Handler.ListBooks | src/handler.js:81-108 | always 200 "success"; the data is the `{id, name, publisher}` projection of the matching books in table order |
| Handler.ListedIffMatches | src/handler.js:84-104 | a summary is listed if and only if some stored book satisfies the query and projects to it |
| Handler.ListWithoutFilters | src/handler.js:84 | with no query fields every book is listed, in table order |
| Handler.ReadingUnfinished | src/handler.js:90-95 | `?reading=1&finished=0` keeps only books being read and not finished |
| Handler.AppendFound | src/handler.js:55-57 | a book pushed under a fresh id is found at the end, and fetching it returns exactly that record |
| Handler.ReplacedFound | src/handler.js:173-185 | a slot rewritten under its own id keeps ids unique and is what a fetch by that id returns |
| Handler.RemovedIsGone | src/handler.js:207-210 | with unique ids, splicing out a book leaves no book with its id and keeps ids unique |
| Handler.Store.constructor | src/handler.js:2 | the table starts empty and satisfies the store invariant |
| Handler.Store.AddBook | src/handler.js:6-77 | absent name: 400 first; then `pageCount < readPage`: 400; both leave the table unchanged. Otherwise exactly one record is appended with `finished == (pageCount == readPage)` and `insertedAt == updateAt`, earlier entries unchanged, 201 with the fresh id; the invariant is kept |
| Handler.Store.EditBook | src/handler.js:135-201 | unknown id: 404 before the payload is looked at; then absent name or `pageCount < readPage`: 400; failures leave the table unchanged. Success rewrites only the first matching slot from the payload, keeps `id` and `insertedAt`, recomputes `finished`, sets `updateAt`, 200; the length is kept |
| Handler.Store.DeleteBook | src/handler.js:205-225 | a stored id: exactly the first matching element is spliced out, the rest keep their order, the length drops by one, no book with that id remains, 200; otherwise 404 with the table unchanged |
| Lifecycle.AddEditDelete | src/handler.js:6-225 | add, fetch, edit, delete in a row: the fetch sees the derived `finished`, the edit keeps `insertedAt`, a second delete reports 404, and the table ends as it began |

## Left out

- `nanoid(16)` is a foreign random generator. The id is a parameter, and the precondition that it is not stored stands for the generator's uniqueness.
- `new Date().toISOString()` reads the clock. Timestamps are string parameters.
- The framework's response builder (`h.response(...).code(...)`) is represented by the `Response` value. The get handler's success is a plain object that the framework sends with code 200; the model writes that 200 out.
- Payload fields are typed (numbers are integers, `reading` a boolean, `name` a string). JavaScript values of other types, `null`, and the runtime errors they could raise (for instance `toLowerCase` on a non-string name) are not modelled.
- JsText.StrToBool: models `!!Number(s)` only for decimal digit strings; whitespace, signs, fractions, exponents, hexadecimal and `Infinity` are read as falsy, which JavaScript's `Number` does not do.
- JsText.Lower: lowers only ASCII letters; Unicode case mapping is not modelled.
- The `./books` module is not part of this model; the table is taken to start empty.
- src/routes.js is a static route table and src/server.js is server start-up, CORS and logging; both are framework I/O with no logic of their own.
- Concurrency: handlers run to completion on one event loop, so each is modelled as one sequential step.
