# logique-books: a verified model of the books API

`logique-books` is a small Express/TypeORM service. It keeps one Postgres table of books and serves five routes under
the API root:

| route | what it does |
|---|---|
| `POST /books` | validate the body, then create a book |
| `GET /books` | list the books; optional `search`, `page` and `limit` query parameters |
| `GET /books/:id` | fetch one book |
| `PUT /books/:id` | validate the body, then overwrite a book's fields |
| `DELETE /books/:id` | remove a book |

Every reply is a status code and a `{ message, data }` envelope.

This project models that request path in Dafny:

- **Routing.** The route table sends each request through the validation middleware when the route has it.
- **Validation.** The body is checked against the `BookDto` rules, with class-validator semantics. Any failure becomes a 422 reply.
- **Controller.** Each controller method turns a repository result, or a thrown error, into a reply.
- **Repository.** Reads and writes the table.

| file | module | models |
|---|---|---|
| `wrappers.dfy` | `Wrappers` | `Option` |
| `text.dfy` | `Text` | what the code relies on from Postgres `ILIKE` and from JavaScript `parseInt(s, 10)` |
| `entities.dfy` | `Entities` | the `Book` row, a book as a request supplies it (JavaScript numbers), and a partial update. Which numbers and texts the columns accept is modelled explicitly |
| `book_repository.dfy` | `Repository` | class `BookRepository`, which owns the table (`rows`) and the id sequence (`nextId`) |
| `envelope.dfy` | `Envelope` | the reply: status, message and the data shapes the controller sends |
| `book_controller.dfy` | `Controller` | class `BookController`: query defaulting, paging and the reply for each outcome |
| `book_dto.dfy` | `Dto` | the JSON body, the `BookDto` rules, the list of `ValidationError`s class-validator produces, and what a valid body means |
| `validation_handler.dfy` | `ValidationHandler` | the 422 gate: flattening the constraint messages |
| `route.dfy` | `Routes` | the route table, and class `Server`: one controller, one table, the year bound. It handles one request at a time |

Modelling choices:

- **Numbers.**
  - JavaScript numbers are `real`, taken as exact: double rounding past 2⁵³ and `Infinity` are not modelled (see "## Left out").
  - The `published_year` and `stock` columns are Postgres `integer`. Saving a number that is not whole, or is outside −2³¹..2³¹−1, throws. The controller turns that into a 500.
- **Database refusals.** Besides the numbers above, the model includes these statements Postgres refuses for the values this code sends:
  - An id outside −2³¹..2³¹−1 cannot be bound to the `integer` key, so `findOneBy` and `delete` throw. The controller answers 500.
  - Text holding U+0000 is refused, in a stored title, author or genre and in a search pattern.
  - LIMIT and OFFSET are `bigint`. A negative value, or one past 2⁶³−1, is refused. The boundary is stated on the exact values; JavaScript's rounding of the parsed query is not modelled.
- **Faults.** Any other database failure (an unreachable server, say) is the parameter `fault`. A faulting call leaves the table unchanged.
  - `getBooks` has no `try`/`catch`. When its query fails, no reply is sent. The model returns `None`, which the server reports as `Unhandled`. This assumes the Express 4 / older Node behaviour, where a rejected handler promise is only an unhandled rejection (see "## Left out").
- **Year bound.** `@Max(new Date().getFullYear())` is evaluated once, when `BookDto` is loaded. It is the constant `Server.maxYear`.
- **Validation messages.**
  - Within one field, messages are listed in the order class-validator runs the decorators: bottom-up.
  - Fields are listed in declaration order.
- **Empty text.** `@IsString()` accepts `""`, so empty titles, authors and genre names pass validation. The model follows the code (`Dto.RuleBoundaries`).

## Model

| member | source | states |
|---|---|---|
| Text.ContainsIff | src/repositories/book.repository.ts:37 | `%s%` containment holds exactly when the needle occurs at some offset of the haystack |
| Text.EmptyOccurs | src/repositories/book.repository.ts:35-42 | the empty pattern occurs in every string |
| Text.ILikeIff | src/repositories/book.repository.ts:37 | `value ILIKE '%p%'` holds exactly when lower-cased `p` occurs somewhere in lower-cased `value` |
| Text.LeadingDigits | src/controllers/book.controller.ts:45-46 | `parseInt` reads the longest run of decimal digits: it is a prefix, all digits, and the next character is not a digit |
| Text.Digits | src/controllers/book.controller.ts:45-46 | a natural number's decimal rendering is non-empty and made only of digits |
| Text.DigitsValueOfDigits | src/controllers/book.controller.ts:45-46 | the value of a natural number's decimal digits is that number |
| Text.LeadingDigitsAppend | src/controllers/book.controller.ts:45-46 | the digit run stops exactly where non-digit text begins |
| Text.ParseDigitsThen | src/controllers/book.controller.ts:45-46 | the unsigned part of `parseInt` reads back a natural number written in decimal and followed by non-digits |
| Text.MinusThen | src/controllers/book.controller.ts:45-46 | a leading `-` is not JavaScript whitespace, so it survives trimming, and `parseInt` negates the digits read after it |
| Text.ParseNegativeThen | src/controllers/book.controller.ts:45-46 | `parseInt` of `-n` followed by non-digit text returns `-n` |
| Text.ParseNonNegativeThen | src/controllers/book.controller.ts:45-46 | `parseInt` of a non-negative decimal followed by non-digit text returns that number |
| Text.ParseDecimalRoundTrip | src/controllers/book.controller.ts:45-46 | round trip: `parseInt` reads back `n` from `n` written in plain decimal digits followed by any `rest` not starting with a digit, for every integer `n`. JavaScript's `String(n)` writes those digits for \|n\| < 10²¹ |
| Entities.Row | src/entities/book.ts:4-22 | a storable book becomes the row with the given id and exactly the supplied title, author, genres, year and stock |
| Entities.Merge | src/repositories/book.repository.ts:87 | `merge`: every supplied field overwrites the stored one, and every absent field keeps the stored value |
| Entities.RowOfStoredRow | src/entities/book.ts:4-22 | a row can be stored again exactly when its integers fit `integer` and no text holds U+0000; then storing it gives it back unchanged. An empty patch merges to the row itself |
| Entities.MergeIdempotent | src/repositories/book.repository.ts:85-88 | applying the same update twice gives the same book as applying it once |
| Repository.BookRepository.constructor | src/repositories/book.repository.ts:9-11 | a new repository has an empty table and starts its ids at 1 |
| Repository.BookRepository.CreateBook | src/repositories/book.repository.ts:13-16 | a storable book is appended under a fresh id, the next in the sequence, and returned. Storable means whole numbers within `integer` and no U+0000 in any text. Otherwise the save is rejected and the table is unchanged. Key invariant kept |
| Repository.BookRepository.GetBooks | src/repositories/book.repository.ts:27-54 | `totalBooks` is the number of rows matching the search. `books` is that page of the matching rows: skip `(page-1)*limit`, take `limit`. Refused exactly when the LIMIT or OFFSET is negative or past `bigint`, or a non-empty search holds U+0000 |
| Repository.BookRepository.GetBookById | src/repositories/book.repository.ts:64-66 | refused exactly when the id is outside `integer`. Otherwise returns a book exactly when a row has the id, and then it is the row with that id (`Find`) |
| Repository.BookRepository.UpdateBook | src/repositories/book.repository.ts:81-91 | an id outside `integer` is rejected; an unknown id is not found. In both cases nothing changes. Otherwise the row with the id is replaced in place by the merge of stored row and update, or the save is rejected and nothing changes |
| Repository.BookRepository.DeleteBook | src/repositories/book.repository.ts:103-106 | refused, with nothing removed, exactly when the id is outside `integer`. Otherwise reports success exactly when a row had the id, and the table becomes the old one without that row. Key invariant kept |
| Repository.WithoutMembers | src/repositories/book.repository.ts:103-106 | after a delete, the rows are exactly the old rows whose id differs |
| Repository.WithoutKeyed | src/repositories/book.repository.ts:103-106 | deleting keeps ids unique, increasing and below the next id |
| Repository.RefusalExamples | src/repositories/book.repository.ts:27-106 | id 3000000000 is outside `integer`, while 2³¹−1 is inside. Page 10000000000 of 1000000000 is refused, as is a search holding U+0000; page 1 of 10 is not, and neither is a LIMIT of exactly 2⁶³−1 as Postgres receives it. A title or genre holding U+0000 is not storable |
| Repository.FilterMembers | src/repositories/book.repository.ts:35-45 | the counted rows are exactly the rows that satisfy the search, and there are no more of them than rows |
| Repository.FilterNoSearch | src/repositories/book.repository.ts:35 | with an empty search no filter is applied: every row is counted |
| Repository.MatchesIff | src/repositories/book.repository.ts:37 | a book matches a search exactly when the search occurs in the title, the author or some genre, ignoring case |
| Repository.EmptySearchMatchesAll | src/repositories/book.repository.ts:37 | the pattern `%%` matches every book |
| Repository.WindowSlice | src/repositories/book.repository.ts:48-51 | a page holds at most `limit` books, all from the matching rows, in order from offset `(page-1)*limit`. It holds exactly min(limit, what remains) |
| Repository.FetchedRowsMatch | src/repositories/book.repository.ts:27-54 | every listed book is a row of the table that satisfies the search |
| Repository.KeyedUnique | src/entities/book.ts:5-6 | no two rows share a primary key |
| Repository.DeletedKeyAbsent | src/repositories/book.repository.ts:103-106 | after deleting an id, it is gone and no other id is |
| Repository.FindMeaning | src/repositories/book.repository.ts:64-66 | `findOneBy({ id })` finds something exactly when the id is present, and what it finds is a row with that id |
| Controller.FailuresCarryNoData | src/controllers/book.controller.ts:19-151 | a success status (201 or 200) is sent exactly on success. Every failure reply, and the delete reply, carries `null` data |
| Controller.NumberOr | src/controllers/book.controller.ts:45-46 | `parseInt(x) \|\| d`: a parsed non-zero value is kept, negative ones included. A missing value, `NaN` or 0 gives `d`, so the result is never 0 when `d` is not 0 |
| Controller.NumberOrDecimal | src/controllers/book.controller.ts:45-46 | a query value written as `n` followed by non-digits gives `n`, or the default when `n` is 0. A missing value gives the default |
| Controller.TotalPages | src/controllers/book.controller.ts:55 | `Math.ceil(total/limit)`: the pages cover every book, and the last page is not empty |
| Controller.PagesPrefix | src/controllers/book.controller.ts:55 | the first `count` pages together are the first `count*limit` matching books |
| Controller.PagesCoverAll | src/controllers/book.controller.ts:55 | all `totalPages` pages together are exactly the matching books, and none of them is empty |
| Controller.PagingExamples | src/controllers/book.controller.ts:55 | 0 books give 0 pages, 1 book gives 1 page, and 23 books at 10 a page give 3 pages with 3 on the last |
| Controller.BookController.constructor | src/controllers/book.controller.ts:8-10 | the controller owns a fresh, empty repository |
| Controller.BookController.CreateBook | src/controllers/book.controller.ts:19-27 | 201 "Data Book Created Successfully" with the stored row appended under the next id. On a failure or an unstorable body (a number the column refuses, U+0000 in text): 500 and the table is unchanged |
| Controller.BookController.GetBooks | src/controllers/book.controller.ts:39-63 | defaults the parameters (`search` "", `page` 1, `limit` 10). Returns 200 with the page, `totalPages`, `totalBooks` and that page of matching books. No reply exactly when the query fails or Postgres refuses the LIMIT, the OFFSET or the search |
| Controller.BookController.GetBookById | src/controllers/book.controller.ts:77-90 | 200 with the row that has the id, 404 "Data not found" when there is none, 500 on failure or for an id outside `integer` |
| Controller.BookController.UpdateBook | src/controllers/book.controller.ts:107-123 | 500 and no change on failure or for an id outside `integer`; 404 for an unknown id. Otherwise 201 "Data book updated successfully" with the row replaced in place by the merge, or 500 and no change when the merge is not storable |
| Controller.BookController.DeleteBook | src/controllers/book.controller.ts:137-151 | 201 "Book deleted successfully" exactly when the id existed, else 404. The row is removed. On failure or for an id outside `integer`: 500 and no change |
| Dto.FailedEmptyIff | src/dto/book.dto.ts:12-34 | a field produces no messages exactly when every one of its constraints holds |
| Dto.FieldErrorsIff | src/dto/book.dto.ts:12-34 | a field produces no `ValidationError` exactly when it meets all its rules |
| Dto.ValidateIff | src/dto/book.dto.ts:12-34 | `validate` returns no errors exactly when the body is valid: title and author strings; year a number in [1000, load year]; genres a non-empty array of strings; stock a whole number ≥ 0 |
| Dto.FailedMembers | src/dto/book.dto.ts:12-34 | a message is listed for a field exactly when it is the message of one of the field's constraints that the value fails |
| Dto.FieldErrorsShape | src/dto/book.dto.ts:12-34 | a field yields at most one error, named after the field. Its messages are exactly those of the field's failed constraints, and there is at least one |
| Dto.NameInjective | src/dto/book.dto.ts:12-34 | distinct fields have distinct property names |
| Dto.SourceField | src/dto/book.dto.ts:12-34 | every reported error comes from one field's own checks |
| Dto.FieldEntryIncluded | src/dto/book.dto.ts:12-34 | every error of a field is in the full report |
| Dto.ErrorPerFailingField | src/dto/book.dto.ts:12-34 | the report names a field exactly when that field is invalid, and every reported error carries at least one message |
| Dto.RuleBoundaries | src/dto/book.dto.ts:19-33 | year 999 and load year + 1 are refused, while 1000 and the load year pass. `[]` is refused and `[""]` passes. Stock 0 passes, −1 and 2.5 are refused. The empty title passes |
| Dto.ValidIsWellTyped | src/dto/book.dto.ts:12-34 | a valid body has every field present with the declared type |
| Dto.FullPatchReplaces | src/controllers/book.controller.ts:110-112 | merging a full validated body replaces every field of the stored row |
| Dto.StoredValidBody | src/dto/book.dto.ts:19-33 | a row stored from a valid body has a year within the bounds, at least one genre and no negative stock |
| ValidationHandler.Handle | src/middlewares/validationHandler.ts:19-29 | `next()` exactly when there are no errors. Otherwise 422 "Validation Error" whose messages are exactly those the errors carry |
| ValidationHandler.ErrorMessagesAppend | src/middlewares/validationHandler.ts:24 | flattening distributes over concatenation of error lists |
| ValidationHandler.ErrorMessagesMembers | src/middlewares/validationHandler.ts:24 | a message is listed exactly when some error carries it |
| ValidationHandler.ErrorMessagesLength | src/middlewares/validationHandler.ts:24 | the flattened list has as many messages as the errors carry together: nothing lost, nothing added |
| ValidationHandler.ConstraintlessErrorRejects | src/middlewares/validationHandler.ts:23-25 | an error without constraints still rejects the request, but adds no message (`err.constraints \|\| {}`) |
| ValidationHandler.BookBodyGate | src/middlewares/validationHandler.ts:19-29 | the gate passes a book body exactly when it is valid. Otherwise it sends 422 listing every failed check |
| Routes.Dispatch | src/routes/route.ts:9-13 | POST and PUT are the validated routes. The `:id` routes are exactly those on `/books/:id`. Exactly the listed combinations of verb and path have no route |
| Routes.DispatchTargets | src/routes/route.ts:9-13 | each verb reaches its own handler, and HEAD is routed like GET |
| Routes.Server.constructor | src/routes/route.ts:6-7 | one controller over an empty table, with the year bound fixed at load |
| Routes.Server.Handle | src/routes/route.ts:9-13 | rows keep the rules, ids stay unique, invalid bodies get 422 and change nothing, and each route has the effect and reply of its controller method. An id outside `integer` gets 500. GET changes nothing |
| Routes.Server.List | src/routes/route.ts:10 | GET /books: the 200 listing, or no reply exactly when the query fails or is refused |
| Routes.Server.Read | src/routes/route.ts:11 | GET /books/:id: 200 or 404 for the row with the id; 500 on failure or for an id outside `integer` |
| Routes.Server.Create | src/routes/route.ts:9 | a validated POST appends the row under the next id with 201, or answers 500 when the body is not storable or the call fails |
| Routes.Server.Update | src/routes/route.ts:12 | a validated PUT gives 500 for an id outside `integer` and 404 for an unknown id. Otherwise it replaces the row in place with 201, or answers 500 when the merge is not storable. Rows keep the rules |
| Routes.Server.Remove | src/routes/route.ts:13 | DELETE removes the row, 201 or 404; 500 and no change on failure or for an id outside `integer` |
| Routes.UpdatedRowsMeetRules | src/routes/route.ts:12 | overwriting a row from a validated body keeps every row within the rules |
| Routes.DuneBodyValid | src/dto/book.dto.ts:12-34 | the scenario's book (year 1965, one genre, stock 3) passes validation whenever the load year is 1965 or later, and can be stored |
| Routes.DuneScenario | src/routes/route.ts:9-13 | create, read, delete, then read again gives statuses 201, 200, 201, 404 |

## Left out

- ILIKE wildcards: `%`, `_` and the escape character `\` inside the search text are matched literally.
  - Case folding covers ASCII letters only; Unicode case folding and collation are not modelled.
- Row order: `getMany()` has no `ORDER BY`, and Postgres promises no order. The model assumes rows come back in insertion order, with an updated row keeping its place. A Postgres UPDATE writes a new row version, which a sequential scan can return in a different place.
- `getCount` and `getMany` are two separate queries, and nothing stops another request changing the table between them. Requests are modelled one at a time.
- `parseInt` of a path id that is not a number gives `NaN`. `findOneBy({ id: NaN })` and the matching delete are not modelled: path ids are integers.
- Query parameters given more than once arrive as arrays. They are not modelled: a query value is one string or absent.
- `Repository.BookRepository.GetBooks` requires a non-zero limit: `parseInt(..) || 10` never passes 0. TypeORM's treatment of `take(0)` is not modelled.
- `Controller.NumberOr`, `Repository.QueryRefused` and `Dto.Json` take parsed query values and JSON numbers as exact. IEEE-754 doubles are not modelled:
  - `parseInt` rounds values past 2⁵³. `?limit=9223372036854775807` becomes 2⁶³ in JavaScript, which Postgres refuses as a LIMIT, while the model passes 2⁶³−1 on exactly and answers 200.
  - A JSON number too large for a double, such as `1e400`, parses to `Infinity`, which `@IsNumber()` and `@IsInt()` refuse with a 422. No `Dto.Json` value stands for it.
  - `page * limit` and `(page - 1) * limit` are computed exactly, without rounding.
- The `SERIAL` id sequence running out is not modelled.
- Express path matching is reduced to three path shapes. Trailing slashes, case and URL decoding are not modelled.
- The Express fallback for an unmatched route is `NoRoute`.
- Everything outside the request path is not part of this model:
  - Socket I/O and `src/index.ts` (server start-up, JSON body parsing).
  - `src/middlewares/securityHandler.ts`.
  - `src/configs/ormconfig.ts`.
  - Connecting to the database and migrations.
- The table is empty when the server starts.
- `async`/`await` interleaving is not modelled: each request runs to completion.
- The runtime's handling of `getBooks`'s rejected promise is an assumption. The model takes Express 4 on a Node version that only reports an unhandled rejection: no reply is sent and the server keeps running. On Node 15 or later the process exits instead, and Express 5 would answer 500.
- Other limits Postgres puts on values, such as the 1 GB limit on a text value, are not modelled.
- `Routes.Server.Handle`: the listing reply is tied to the rows as they are after the call, which are the rows before it, since a GET changes nothing.
- The `Partial<Book>` the controller passes never carries an `id`. A body `id` is dropped by the destructuring, so it is not modelled.
- `Dto.FieldErrorsShape` states which messages a field's entry lists, not their order. The model lists them in bottom-up decorator order (`Dto.Rules`), an assumption about class-validator's metadata storage.
