# book-stock-manager, modelled in Dafny

A model of the core of book-stock-manager, a Go CRUD service over one `book`
table. The service has three layers, and the model keeps them:

- the **repository** sends one SQL statement per operation and sorts failures
  into `ErrNoRows` and `ErrDatabaseQuery`;
- the **use case** validates input before it calls the repository. It maps
  "no rows" to 404, any other storage failure to 500 and a refused input to 400;
- the **controller** parses the request, applies the pagination defaults and
  computes the navigation links, then turns the use-case outcome into a reply.

Files, one module each (plus `Wrappers` for `Option`/`Result`):

| file | module | models |
|---|---|---|
| entity.dfy | `Entity` | `entity.Book`, `types.ErrDatabaseQuery`/`ErrNoRows`, int64, UUID, dates |
| model.dfy | `Model` | `BookToResponse`, the pagination envelope, the validation tags of the two book requests |
| sql_queries.dfy | `SqlQueries` | what each SQL constant does to the table, including the UPDATE merge with sentinels |
| book_repository.dfy | `Repository` | `BookRepository` as a class that holds the table (`rows`) and a ghost log of the statements it sent (`issued`) |
| book_usecase.dfy | `Usecase` | `BookUsecase` as a class over the repository. `GetMany` fills a preallocated array in a loop |
| book_controller.dfy | `Controller` | the handlers, the shared error fallback, `max`, and the normalisation and link arithmetic of `GetBooks` |
| scenario.dfy | `Scenario` | a client: create the book "Hujan", then fetch it by ISBN |

How the environment is represented:

- The table is a sequence of rows in storage order. Neither the page query
  nor the `LIMIT 1` lookups by id and by ISBN have an ORDER BY, so the model
  assumes the database returns rows in this one fixed order: a page is a
  contiguous slice of it and a lookup returns the first matching row. The
  assumption includes how writes affect that order: an INSERT appends at the
  end, an UPDATE keeps the row where it was, and a DELETE keeps the other
  rows in their relative order. PostgreSQL guarantees none of this (an
  UPDATE writes a new tuple version that a scan may return elsewhere).
- A database failure that does not depend on the table is an input flag,
  `dbFault`. Examples are a lost connection or a cancelled context.
- The validator's `isbn` check and `uuid.Parse` are function-valued fields of
  `BookUsecase`. The outcome of `uuid.NewV7` is an input of `Create`.
- A request body or query string that fails to parse is an input of `None`.
- "The repository was not called" is stated as `unchanged(repo)`. This
  covers the ghost log of statements sent.

Behaviour a reader might not expect, which the model follows:

- The UPDATE keeps the stored stock only for exactly `-1`, the sentinel the
  handler's own description names (book_controller.go:218). Any other
  negative stock, such as `-5`, is written (sql_queries.go:16).
- The UPDATE does not set `updated_at`. Only a database trigger could refresh
  it, and none is part of this model. The merged row keeps both audit stamps.
- The stock tag is `required` alone. It refuses 0 and lets negative stock through.
- `UpdateBookRequest` embeds `CreateBookRequest` with its `required` tags.
  So an update through the use case must carry every text field and a date.
  The `''` sentinels of the UPDATE cannot be reached that way, but stock
  `-1` can (`Usecase.AcceptedUpdateOverwritesAllButStock`).
- A handler's own fallback message ("Failed to get book by ID" and the like)
  is reachable only from `Create`. That is the one use-case error that is not
  a fiber error: id generation failed. Every other use-case error already
  carries a code and a message, and the reply passes them on.

## Model

| member | source | states |
|---|---|---|
| Model.BookToResponse | internal/model/model.go:39-49 | the response of a row; which field goes where is the function's field-by-field body, and ResponseForgetsOnlyAuditStamps proves the response keeps every field but CreatedAt/UpdatedAt and forgets exactly those two |
| Model.PaginationTagsHold | internal/model/model.go:12-13 | the list request's tags: offset ≥ 0 and 1 ≤ limit ≤ 100 (related to the handler's defaults by NormalizeMeetsPaginationTags) |
| Model.CreateAccepted | internal/model/book_model.go:7-14 | the validator accepts a create request iff the ISBN is non-empty and passes the isbn rule, title, author and publisher are non-empty, the date is not 0001-01-01 and stock is not 0 |
| Model.UpdateAccepted | internal/model/book_model.go:16-19 | an update request is accepted iff its book id is not the nil UUID and its embedded create request is accepted |
| Model.ResponseForgetsOnlyAuditStamps | internal/model/model.go:39-49 | two rows give the same response iff they agree on every field but CreatedAt/UpdatedAt: the response keeps every other field and forgets exactly those two (which response field each value lands in is the function's body) |
| Model.StockTagRefusesOnlyZero | internal/model/book_model.go:13 | a create request with stock s is accepted iff s ≠ 0 and the request is otherwise acceptable; negative stock passes |
| Model.AcceptedUpdateHasNoFieldSentinel | internal/model/book_model.go:7-19 | an accepted update has non-empty isbn, title, author, publisher and a date other than 0001-01-01 |
| Model.StockSentinelPassesValidation | internal/model/book_model.go:13-19 | setting stock to -1 in an accepted update keeps it accepted |
| SqlQueries.SelectById | internal/repository/sql_queries.go:6 | at most one row; one is found iff some row has the id, and it carries that id and is in the table |
| SqlQueries.SelectByIsbn | internal/repository/sql_queries.go:7 | at most one row; one is found iff some row has the ISBN, and it carries that ISBN and is in the table |
| SqlQueries.SelectByIdFindsKeyedRow | internal/repository/sql_queries.go:6 | in a table keyed by book_id, the lookup by a row's id returns that row |
| SqlQueries.SelectByIsbnFindsFirst | internal/repository/sql_queries.go:7 | when rows share an ISBN, the lookup returns the first in storage order |
| SqlQueries.SelectPage | internal/repository/sql_queries.go:8 | the page holds at most `limit` rows, exactly the rows from position `offset` on, in order |
| SqlQueries.AdjacentPagesConcatenate | internal/repository/sql_queries.go:8 | page (o, a) followed by page (o+a, b) is page (o, a+b): paging on skips and repeats nothing |
| SqlQueries.WholeTableIsOnePage | internal/repository/sql_queries.go:8 | the page at 0 as long as the table is the whole table |
| SqlQueries.AdjacentPagesAreDisjoint | internal/repository/sql_queries.go:8 | in a keyed table, no book is on two adjacent pages |
| SqlQueries.InsertKeepsKey | internal/repository/sql_queries.go:5 | inserting a row with a new id keeps book_id a key |
| SqlQueries.InsertThenSelectById | internal/repository/sql_queries.go:5-6 | a row inserted under a new id is what the lookup by that id returns |
| SqlQueries.NullIf | internal/repository/sql_queries.go:11-16 | SQL NULLIF, a built-in stated by its definition; what it does to each column is stated independently by SqlQueries.MergeUpdate's per-column ensures |
| SqlQueries.Coalesce | internal/repository/sql_queries.go:11-16 | two-argument SQL COALESCE, a built-in stated by its definition; what it does to each column is stated independently by SqlQueries.MergeUpdate's per-column ensures |
| SqlQueries.MergeUpdate | internal/repository/sql_queries.go:10-16 | each text column takes the new value iff it is non-empty, the date iff it is not 0001-01-01, the stock iff it is not -1; otherwise the stored value stays; book_id and the audit stamps never change |
| SqlQueries.AllSentinelUpdateIsNoOp | internal/repository/sql_queries.go:10-16 | an update with every parameter at its sentinel leaves the row as it was |
| SqlQueries.MergeIsIdempotent | internal/repository/sql_queries.go:10-16 | applying the same update twice gives the row one application gives |
| SqlQueries.UpdateWhere | internal/repository/sql_queries.go:10-16 | the merge is applied to exactly the rows whose book_id is the key; every other row is untouched and the row count is kept |
| SqlQueries.UpdateWhereKeepsIds | internal/repository/sql_queries.go:10-16 | the update changes no book_id, so the table stays keyed and holds the same ids |
| SqlQueries.UpdateThenSelectById | internal/repository/sql_queries.go:6-16 | after updating a stored id, the lookup by that id returns the merge of the old row with the update |
| SqlQueries.DeleteWhere | internal/repository/sql_queries.go:9 | a row survives iff its book_id is not the key; afterwards no row has the key; the table shrinks iff the key was present and is unchanged otherwise |
| SqlQueries.DeleteWhereKeepsKey | internal/repository/sql_queries.go:9 | deleting keeps book_id a key |
| SqlQueries.DeleteWhereKeepsOthers | internal/repository/sql_queries.go:9 | deleting one id removes no other id |
| SqlQueries.DeleteTwiceMatchesNothing | internal/repository/sql_queries.go:9 | a second delete of the same id changes nothing |
| Repository.BookRepository.constructor | internal/repository/book_repository.go:18-20 | a repository starts over a keyed table, having sent nothing |
| Repository.BookRepository.Create | internal/repository/book_repository.go:22-29 | fails with ErrDatabaseQuery, table unchanged, iff the database faults or the id is taken; otherwise appends the row with the database's audit stamps, returns it, and the lookup by its id now finds it |
| Repository.BookRepository.GetById | internal/repository/book_repository.go:31-43 | the row with the id; ErrNoRows when none; ErrDatabaseQuery on a fault; table unchanged |
| Repository.BookRepository.GetByIsbn | internal/repository/book_repository.go:45-56 | the first row with the ISBN; ErrNoRows when none; ErrDatabaseQuery on a fault; table unchanged |
| Repository.BookRepository.GetMany | internal/repository/book_repository.go:58-70 | the page, empty rather than an error when no row is in range; the only failure is ErrDatabaseQuery, on a fault or a negative offset/limit; table unchanged |
| Repository.BookRepository.Update | internal/repository/book_repository.go:72-92 | on an absent id ErrNoRows with the table unchanged; otherwise the merged row, now stored under that id, and the table is the UPDATE's result |
| Repository.BookRepository.Delete | internal/repository/book_repository.go:94-105 | ErrNoRows iff no row had the id; afterwards no row has it; a fault leaves the table unchanged |
| Repository.BookRepository.GetTotalCount | internal/repository/book_repository.go:107-116 | a fault gives ErrDatabaseQuery; otherwise the number of rows in the table, as the doc comment promises (the statement constant is missing, see Left out); table unchanged |
| Usecase.RequestToBook | internal/usecase/book_usecase.go:36-44 | the entity built from a request under a given id: every request field carried over, audit stamps left for the database (used by Create, and by Update at book_usecase.go:123-131; its merge is stated by AcceptedUpdateOverwritesAllButStock) |
| Usecase.ProjectAll | internal/usecase/book_usecase.go:109-112 | one response per row, in the same order, each the row's projection |
| Usecase.AcceptedUpdateOverwritesAllButStock | internal/usecase/book_usecase.go:117-133 | through the use case, an accepted update overwrites every text field and the date; only stock -1 keeps a stored value |
| Usecase.BookUsecase.constructor | internal/usecase/book_usecase.go:21-23 | the use case holds the given repository and validator |
| Usecase.BookUsecase.Create | internal/usecase/book_usecase.go:25-52 | a refused request gives 400 and no repository call; then a failed id generation gives a status-less error; then an insert failure gives 500; success returns the request's fields under the generated id and appends the row |
| Usecase.BookUsecase.GetById | internal/usecase/book_usecase.go:54-70 | an unparseable id gives 400 with no repository call; a missing row 404 "Book not found"; a fault 500; otherwise the row's projection |
| Usecase.BookUsecase.GetByIsbn | internal/usecase/book_usecase.go:72-88 | an ISBN failing the isbn check gives 400 with no repository call; a missing row 404; a fault 500; otherwise the first matching row's projection |
| Usecase.BookUsecase.GetMany | internal/usecase/book_usecase.go:90-115 | limit ≤ 0 gives 400 with no repository call; a page failure gives 500; a count failure after the page gives 500 and no books; otherwise the projected page in order and the row count; never 404 |
| Usecase.BookUsecase.Update | internal/usecase/book_usecase.go:117-143 | a refused request gives 400 and no repository call; otherwise every field goes to the repository as sent, keyed by the request's id; absent id 404, fault 500, success the merged row's projection |
| Usecase.BookUsecase.Delete | internal/usecase/book_usecase.go:145-161 | an unparseable id gives 400 with no repository call; an absent id 404; a fault 500; afterwards the id is gone |
| Controller.FromUsecaseError | internal/controller/book_controller.go:58-67 | an error reply that keeps a fiber error's code and message, and gives 500 with the handler's message for any other error |
| Controller.Max | internal/controller/book_controller.go:284-289 | a value ≥ both arguments and equal to one of them |
| Controller.Normalize | internal/controller/book_controller.go:165-170 | limit ≤ 0 becomes 10, a negative offset 0, other values are kept; the result has offset ≥ 0 and limit ≥ 1 |
| Controller.NormalizeMeetsPaginationTags | internal/model/model.go:11-14 | a normalised request meets the `min=0` / `min=1,max=100` tags iff its limit is ≤ 100; a request meeting the tags is left as it is; normalising twice changes nothing |
| Controller.LastOffset | internal/controller/book_controller.go:200 | (total/limit)*limit is total minus total mod limit, a multiple of limit |
| Controller.Navigation | internal/controller/book_controller.go:186-210 | first is 0; last is a multiple of limit with total−limit < last ≤ total, and equals total when limit divides it; next is present iff offset+limit < total, at offset+limit; prev is present iff offset > 0, at max(0, offset−limit), which is ≥ 0, < offset, and within one limit of it |
| Controller.NextLinkOpensNonEmptyPage | internal/controller/book_controller.go:204-206 | the page the next link points at holds at least one row |
| Controller.LastLinkOpensFinalPage | internal/controller/book_controller.go:199-200 | the page the last link points at holds the last total mod limit rows and nothing after them, so it is empty when limit divides total |
| Controller.WrapInt64 | internal/controller/book_controller.go:186 | int64 arithmetic: the result is congruent to the exact value mod 2^64 and equals it when it fits |
| Controller.NavigationAsWritten | internal/controller/book_controller.go:186-210 | the links with offset+limit summed in int64; they equal the unbounded links whenever the sum fits |
| Controller.NextLinkOverflows | internal/controller/book_controller.go:186-205 | at offset MaxInt64, limit 10 and an empty table, the code's links contain a next link at offset MinInt64+9, where the unbounded rule gives none |
| Controller.NavigationFitsInt64 | internal/controller/book_controller.go:186-206 | with the unbounded rule the next link exists iff offset < total−limit and its offset fits in int64 |
| Controller.BookController.constructor | internal/controller/book_controller.go:32-34 | the controller holds the given use case |
| Controller.BookController.BookCreate | internal/controller/book_controller.go:48-73 | an unparseable or refused body gives 400 and no repository call; id generation failure gives 500 "Failed to create book"; an insert failure gives 500; success gives 201 with the request's fields under the new id |
| Controller.BookController.GetBookByIsbn | internal/controller/book_controller.go:88-109 | an empty ISBN gives 400 "ISBN is required" with no use-case call; then the use case's 400/404/500 pass through unchanged; success gives 200 with the first matching row |
| Controller.BookController.GetBookById | internal/controller/book_controller.go:124-144 | an empty id gives 400 "Book ID is required" with no use-case call; then the use case's 400/404/500 pass through; success gives 200 with the row |
| Controller.BookController.GetBooks | internal/controller/book_controller.go:159-213 | an unparseable query gives 400; after defaulting, a limit over 100 gives 400 with no use-case call; use-case failures pass through as 500; success gives 200 with the projected page, meta (normalised offset, normalised limit, row count) and the links of Navigation |
| Controller.BookController.Update | internal/controller/book_controller.go:228-250 | an unparseable or refused body gives 400 with no repository call; an absent id 404, a fault 500; success 200 with the merged row |
| Controller.BookController.Delete | internal/controller/book_controller.go:265-282 | an empty id gives 400 with no use-case call; an unparseable id 400; an absent id 404; a fault 500; success 204; without a fault the new table is the old one with that id's row deleted and every other row kept |
| Scenario.CreateThenGetByIsbn | internal/controller/book_controller.go:48-109 | on an empty table, creating "Hujan" answers 201 with its fields under the new id, and fetching by its ISBN answers 200 with the same body |

## Left out

- HTTP plumbing: the Fiber server, routing (internal/handler/handler.go), CORS and helmet middleware, dependency wiring (cmd/app/main.go, cmd/app/providers.go), configuration loading (internal/config/config.go) and migrations (db/migrate.go) are not part of this model.
- `newHTTPError`: the timestamp, the status text and the request path of the error envelope are dropped. A reply keeps only its code and message.
- Link URLs: the model keeps the offset and limit of each link, not the string built with `fmt.Sprintf` and `c.BaseURL()`.
- Parsing of bodies, query strings and path parameters is an input: the parsed value, or None when parsing fails.
- `uuid.NewV7`, `uuid.Parse` and the validator's `isbn` checksum rule (ISO 2108) live in libraries outside this model. They appear as an input, a function-valued field and another function-valued field.
- Context cancellation, eris wrapping, cause chains and logging: a cancelled or failed statement is the `dbFault` input. Error messages are the fixed texts the code returns; wrapped cause text is dropped.
- Concurrency: each statement is a single atomic step, and calls run one after another.
- Repository.BookRepository.Create: returns the stored row as a value. In the code, `StructScan` fills the caller's `*entity.Book` and the same pointer comes back; that aliasing is not modelled. The same holds for Update.
- Repository.BookRepository.Create: assumes book_id is the table's primary key. The schema is not part of this model. An insert that reuses an id fails as a query error. ISBN is not assumed unique.
- Repository.BookRepository.Delete: the affected-row count is always available. The code ignores the error of `RowsAffected`, which would read as 0 rows.
- Repository.BookRepository.GetTotalCount: the statement it sends, `bookGetTotalCount`, is not among the constants of internal/repository/sql_queries.go:4-17, so the code as shown does not compile. The model assumes the row count promised by the doc comment at internal/repository/book_repository.go:107, returned as an unbounded natural rather than an int64 (a table cannot exceed 2^63 rows).
- Audit stamps: `created_at`/`updated_at` are filled by the database on insert. They are an input of Create, and the model makes no claim about their values.
- Dates: the request declares `published_at` as a string and the entity as `time.Time`. The model uses one Date type whose zero value, 0001-01-01, is also the UPDATE's sentinel. So `required` on the date refuses exactly that sentinel.
- Controller.Max: works on unbounded integers. Its only use, `max(0, offset-limit)`, has offset ≥ 1 and limit ≤ 100, so no int64 overflow can occur there.
- Controller.BookController.GetBooks: computes `offset + limit` over unbounded integers, the corrected rule of the finding below. The int64 behaviour as written is `Controller.NavigationAsWritten`.

## Findings

| source | as written | input that shows it | evidently intended | confidence | as-written member | corrected member |
|---|---|---|---|---|---|---|
| internal/controller/book_controller.go:186 | `hasNext := offset+limit < total` and the next offset `offset+limit` are int64 sums that wrap past MaxInt64 | offset=9223372036854775807, limit=10, empty table: the sum wraps to -9223372036854775799, so a next link with that negative offset is sent | a next link only when rows remain after the page (compare `offset < total-limit`) | not executed; the wrap-around is certain for this input, which needs a client to send the largest int64 offset | Controller.NextLinkOverflows | Controller.Navigation |
