# Bookstore REST API — a Dafny model

The bookstore service is a small Express application with one resource.
`/book` lists, reads, creates, updates and deletes books kept in a
PostgreSQL table `book`. Before any of that, the `checkApiKey` middleware
reads the `Authorization` header and looks the key up in the `api_key`
table.

This project models four parts of the service:

- **The book model** (`app/models/book.js`):
  - the attribute whitelist;
  - `validate` and `makeValidation`;
  - the statements `getBooks` and `updateBook` assemble, as structured data: order column, direction, placeholders `$k`, bind list;
  - the five operations over an in-memory `book` table.
- **The router** (`app/routes/book.js`):
  - each handler's mapping from the model's outcome, or the error it threw, to a status and body;
  - the `desc` presence flag;
  - the in-place `delete` of `id` from the PATCH body.
- **The key check** (`app/auth.js`, `app/models/apiKey.js`):
  - header present or absent;
  - the key is the header minus its first six characters;
  - the three-valued lookup with strict expiry.
- **The wiring** (`app/app.js`): the key check runs before the router.

## Module layout

| module | file | contents |
|---|---|---|
| `JsValues` | `js_values.dfy` | JavaScript values; `Object.keys`, property read, `delete`, the `+v` coercion |
| `Outcomes` | `outcomes.dfy` | returning or throwing; the three exception kinds; `validate` |
| `BookSchema` | `book_schema.dfy` | columns, the whitelist, rows, what a column accepts, the data rules |
| `BookValidation` | `book_validation.dfy` | `makeValidation` and `addBook`'s four checks |
| `BookOrdering` | `book_ordering.dfy` | the row order of `order by`, the sorted table, `limit`/`offset` windows |
| `BookQueries` | `book_queries.dfy` | the `getBooks` and `updateBook` statements; the `forEach` loop |
| `BookTable` | `book_table.dfy` | the four statements evaluated over a `map<string, Book>` |
| `BookModel` | `book_model.dfy` | the five operations as functions of the table and the arguments |
| `BookProperties` | `book_properties.dfy` | what the operations promise together |
| `Store` | `book_store.dfy` | class `BookStore` owning the table; its methods change or read it |
| `ApiKeys` | `api_key.dfy` | `isApiKeyValid` |
| `Auth` | `auth.dfy` | `checkApiKey` |
| `BookRoutes` | `book_routes.dfy` | the handlers, the PATCH body as a mutable object, and a request through the application |

### Modelling choices

**Results.** Each outcome is a datatype:

| source result | model |
|---|---|
| `undefined` returned by a model function | `ListingFailed`, `LookupFailed` or `CommandFailed` |
| `null` from `getBook` | `NotFound` |
| a driver result | `RowCount(n)` |
| a thrown error | `Threw(InvalidArgumentError(m))`, `Threw(PlainError(m))` or `Threw(TypeError)` |

**Failures.** A storage failure (connection lost, query rejected) is an input, `dbFails`. The table itself refuses a statement in these cases, with the same `undefined` result:

- a duplicate primary key;
- a negative `LIMIT` or `OFFSET`;
- a value that does not fit its column's type.

**Update statement.** The `forEach` loop of `updateBook` is the method `BookQueries.BuildUpdate`. It is proved equal to the recursive definition `UpdatePlan`, and the properties are proved about that definition.

**Table.** `Store.BookStore` holds the table as a field. Its `AddBook`, `UpdateBook` and `DeleteBook` replace it. Each is proved to leave exactly the table that the matching function of `BookModel` describes.

**PATCH body.** The body is an object the handler changes in place, `BookRoutes.RequestBody`.

**Reading `rowCount` of an undefined result.** `PATCH` and `DELETE` read `resp.rowCount` before they check `resp === undefined`. So a failed update or delete throws a `TypeError` out of the async handler, and the 500 line is never reached. The model keeps this behaviour: `CommandResponse` yields `HandlerThrew(TypeError)` for `CommandFailed`, and `StorageFailureThrows` states it for both routes.

## Model

| member | source | states |
|---|---|---|
| JsValues.Names | app/models/book.js:123 | `Object.keys` lists each property's name, in order, one per property |
| JsValues.Get | app/models/book.js:129 | reading an absent property gives `undefined`; reading a present one gives that property's value |
| JsValues.TypeOfIsObject | app/models/book.js:121 | `typeof v === 'object'` holds for `null` and fails for `undefined`, booleans, numbers and strings |
| JsValues.StringToNumber | app/models/book.js:10-11 | `+s` on a string: a negative result comes only from a leading `-`, and every character after the first of a numeric string is a digit |
| JsValues.ToNumber | app/models/book.js:10-11 | `+v`: NaN only for `undefined`, objects and non-numeric strings; a number is itself; `null` and booleans give 0 or 1 |
| JsValues.SignedDecimal | app/models/book.js:34 | `+` reads `-` or `+` before decimal text as the number's sign |
| JsValues.Delete | app/routes/book.js:139 | after `delete o[name]` the name is gone; exactly the other properties remain; the object does not grow |
| JsValues.DeleteAppend | app/routes/book.js:139 | `delete` works property by property: deleting from two runs of properties is deleting from each, so the remaining properties keep their order and their count (with `DeleteSingle`: a single property is dropped exactly when it has the name) |
| JsValues.DeleteKeepsOthers | app/routes/book.js:139 | deleting one property leaves every other property's value unchanged |
| JsValues.NamesAfterDelete | app/routes/book.js:139 | deleting a property introduces no new name |
| JsValues.DecimalRoundTrip | app/models/book.js:34 | `+` applied to the decimal text of `n` gives back `n` |
| JsValues.DigitsOfDecimal | app/models/book.js:34 | the digits of `n`'s decimal text have value `n` |
| Outcomes.Validate | app/models/book.js:75-77 | throws exactly when the expression holds, and then an InvalidArgumentError with the given message |
| BookSchema.ColumnName | app/models/book.js:5 | every column's name is on the whitelist |
| BookSchema.ParseColumn | app/models/book.js:5 | a name denotes a column exactly when it is on the whitelist, and that column's name is the name read |
| BookSchema.ColumnNamesRoundTrip | app/models/book.js:5 | the six columns line up with the six whitelist entries by position; name and column convert into each other |
| BookSchema.InsertAttributes | app/models/book.js:6 | the insert list is the whitelist without its last entry `added_dttm`, five names |
| BookSchema.SetColumn | app/models/book.js:130 | `set c = v` makes column `c` hold `v` (`undefined` stored as NULL) and leaves every other column alone |
| BookSchema.InsertedRow | app/models/book.js:107-110 | the insert creates a row exactly when each of the five values fits its column; the row holds them in bind order and `added_dttm` is the insert time |
| BookValidation.MakeValidation | app/models/book.js:79-96 | per attribute, the exact condition under which the check passes, and the message when it throws; any other attribute, `id` and `added_dttm` included, passes unchecked |
| BookValidation.ValidatedValueKeepsRowValid | app/models/book.js:79-96 | a value that passes its column's check fits that column and keeps a valid row valid |
| BookValidation.RequiredRulesAreExact | app/models/book.js:82-92 | for `author`, `price` and `year_published`, passing the check is equivalent to keeping every valid row valid |
| BookValidation.ValidateNewBook | app/models/book.js:100-103 | the four checks pass together or the first failing one, in the order author, price, year_published, description, is thrown |
| BookValidation.ValidatedBookIsValidRow | app/models/book.js:100-110 | values that pass the four checks always make an insertable row that keeps the data rules |
| BookOrdering.StrLessIrreflexive | app/models/book.js:22-30 | no text sorts before itself |
| BookOrdering.StrLessTransitive | app/models/book.js:22-30 | text order is transitive |
| BookOrdering.StrLessTotal | app/models/book.js:22-30 | of two different texts one sorts first |
| BookOrdering.StrLessAsymmetric | app/models/book.js:22-30 | text order is asymmetric |
| BookOrdering.KeyLessIrreflexive | app/models/book.js:22-30 | no column value sorts before itself |
| BookOrdering.KeyLessTotal | app/models/book.js:22-30 | of two different column values one sorts first |
| BookOrdering.KeyLessTransitive | app/models/book.js:22-30 | column-value order is transitive |
| BookOrdering.KeyLessAsymmetric | app/models/book.js:22-30 | column-value order is asymmetric |
| BookOrdering.PrecedesAsymmetric | app/models/book.js:22-30 | the row order of `order by c [desc]` is asymmetric |
| BookOrdering.PrecedesTotal | app/models/book.js:22-30 | of two rows with different keys, one comes first |
| BookOrdering.PrecedesTransitive | app/models/book.js:22-30 | the row order is transitive |
| BookOrdering.FirstExists | app/models/book.js:22-30 | a non-empty table has a first row in that order |
| BookOrdering.FirstIsUnique | app/models/book.js:22-30 | the first row is unique |
| BookOrdering.ListsWithFirst | app/models/book.js:22-30 | the first row followed by a listing of the others lists the whole table |
| BookOrdering.OrderedCons | app/models/book.js:22-30 | a row before all rows of an ordered listing extends it to an ordered listing |
| BookOrdering.SortedRows | app/models/book.js:15-30 | the sorted table lists every row exactly once, in strictly increasing order |
| BookOrdering.Skipped | app/models/book.js:37-40 | `offset m` skips exactly `m` rows when there are that many and all of them otherwise; no clause skips none |
| BookOrdering.Kept | app/models/book.js:32-35 | `limit l` keeps exactly `l` rows when there are that many and all of them otherwise; no clause keeps all |
| BookOrdering.Window | app/models/book.js:32-40 | the window holds at most `limit` rows, and they are the ordered rows that follow the skipped ones, in order |
| BookOrdering.WindowSlices | app/models/book.js:32-40 | the window as slices of the ordered rows: from position `m` the next `l` rows, or the rest when fewer remain or there is no limit; nothing when `m` is past the end |
| BookOrdering.WindowOrdered | app/models/book.js:32-40 | a window of an ordered listing is ordered |
| BookOrdering.OrderedKeysMonotone | app/models/book.js:22-30 | in an ordered listing the column values never decrease (ascending) or never increase (descending) |
| BookQueries.LimitValue | app/models/book.js:32-35 | a bound `limit` number exists exactly when the clause is present |
| BookQueries.OffsetValue | app/models/book.js:37-40 | a bound `offset` number exists exactly when the clause is present |
| BookQueries.GetBooksQuery | app/models/book.js:9-40 | the four checks, in source order, each with its own message; arguments that pass all four always yield a statement. Then: order column `sortBy` (default `added_dttm`); descending unless `desc` is exactly `false`; `limit` then `offset` bound only when defined, each placeholder numbered by its position in the bind list |
| BookQueries.KeptAttributes | app/models/book.js:123 | the kept keys are exactly the object's keys that are on the whitelist |
| BookQueries.KeptAttributesAppend | app/models/book.js:123 | the filter works key by key: filtering two runs of keys is filtering each, so kept keys keep their order and multiplicity (with `KeptAttributesSingle`: one key is kept exactly when it is on the whitelist) |
| BookQueries.KeptAttributesIgnoresOthers | app/models/book.js:123 | keys off the whitelist leave the kept list unchanged |
| BookQueries.KeptAllOthers | app/models/book.js:123 | an object with no whitelisted key keeps nothing |
| BookQueries.UpdatePlan | app/models/book.js:126-133 | a built statement has one assignment per kept attribute and one bind value more, the id; a failure is an InvalidArgumentError |
| BookQueries.UpdatePlanSucceedsIff | app/models/book.js:128-129 | the statement is built exactly when every kept attribute passes its check |
| BookQueries.UpdatePlanNumbering | app/models/book.js:127-131 | `$1` binds the book id; the i-th kept attribute is set from `$(i+2)`, which binds that attribute's value |
| BookQueries.UpdatePlanStopsAtFailure | app/models/book.js:128-129 | once a check has thrown, later attributes change nothing |
| BookQueries.UpdatePlanFirstFailure | app/models/book.js:128-129 | the error thrown is that of the first attribute whose check fails |
| BookQueries.BuildUpdate | app/models/book.js:126-135 | the `forEach` loop builds exactly the statement `UpdatePlan` defines, or throws its error |
| BookTable.RunListQuery | app/models/book.js:42-50 | refused exactly for a negative `limit` or `offset`. Otherwise the rows are ordered, each is the table's row under its id, and there are at most `limit` of them. Without either clause, every row is listed; an offset past the end lists none |
| BookTable.ListQueryWindow | app/models/book.js:15-50 | which rows the statement yields: the table in the statement's order, starting after the rows `offset` skips, as many as `limit` keeps, element by element |
| BookTable.SelectById | app/models/book.js:56-72 | not found exactly when no row has the id; otherwise the row stored under it |
| BookTable.InsertRow | app/models/book.js:107-110 | refused (table unchanged) when a value does not fit or the id exists; otherwise exactly one new row under its id |
| BookTable.Targets | app/models/book.js:130 | the assigned columns, one per assignment, in order |
| BookTable.ApplyKeepsUntargeted | app/models/book.js:126-135 | a column no assignment names keeps its value |
| BookTable.ApplyAssigns | app/models/book.js:126-135 | with no column assigned twice, each assigned column holds the stored form of its bind value |
| BookTable.RunUpdate | app/models/book.js:135-138 | count 0 exactly when the statement is well-formed and no row has the id; count 1 exactly when it is well-formed, the row exists and its new id is its own or free, and then the row moves to its new id and nothing else changes; refused in every other case, with the table unchanged |
| BookTable.DeleteById | app/models/book.js:152-155 | count 1 or 0 as the id was present; the id is gone and every other row stays |
| BookModel.ListBooks | app/models/book.js:9-51 | throws exactly what the checks throw, and arguments that pass them always reach the table; `undefined` exactly on storage failure or a negative limit/offset. Otherwise the rows are in the requested order and come from the table, at most `limit` of them, all of them without limit and offset |
| BookProperties.ListBooksPage | app/models/book.js:9-51 | with arguments that pass the checks and a working store, the listing is the window of the whole table sorted by `sortBy` (ascending only for `desc === false`), `offset` rows skipped and `limit` rows kept, each only when given |
| BookModel.FindBook | app/models/book.js:53-73 | `undefined` exactly for a non-string id or storage failure; `null` exactly when no row has the id; otherwise that row |
| BookModel.AddBookStep | app/models/book.js:98-117 | a plain Error for a bad id, then the first failing check; on any failure the table is unchanged; `undefined` exactly on storage failure or an existing id; on success one row is added and no other changes |
| BookModel.UpdateBookStep | app/models/book.js:119-145 | the error order: bad id, not an object, `null` (TypeError), no whitelisted key, then a failing check (exactly when not all pass). A storage failure gives `undefined`, count 0 only for a missing id; the table changes only on count 1 |
| BookProperties.UpdateOutcome | app/models/book.js:119-145 | once every kept attribute passed its check: storage failure gives `undefined`; otherwise count 0 exactly when the patch fits its columns and the id is absent, count 1 exactly when it fits, the id exists and the new id is the book's own or free |
| BookProperties.ExecutableIffFits | app/models/book.js:126-135 | the statement `updateBook` builds is accepted exactly when the kept attributes are distinct and each value has its column's type |
| BookModel.RunPlan | app/models/book.js:126-144 | throws exactly when some kept attribute fails its check; otherwise runs the statement, with the same result guarantees as above |
| BookModel.DeleteBookStep | app/models/book.js:147-161 | `undefined` exactly for a non-string id or storage failure; otherwise the count of rows removed and the table without that id; a missing id changes nothing |
| BookProperties.AddThenGet | app/models/book.js:98-117 | after a successful add, `getBook` finds the row with the given values, the insert time and valid data |
| BookProperties.AddThenList | app/models/book.js:98-117 | after a successful add, a full listing contains the new book |
| BookProperties.AddKeepsRowsValid | app/models/book.js:98-117 | `addBook` keeps every row within the data rules |
| BookProperties.PlannedRowIsPatched | app/models/book.js:126-135 | the built statement applied to a row gives, column by column, the patch: named columns take the object's values, others keep theirs |
| BookProperties.AppliedCell | app/models/book.js:128-131 | one column of a row updated with that numbering equals the patch |
| BookProperties.UpdatedRowIsPatched | app/models/book.js:126-138 | the row a successful update writes is the patch of the old row, under the key the object gives it |
| BookProperties.RenamedKey | app/models/book.js:123-131 | a string `id` in the object becomes the row's new key; otherwise the key stays |
| BookProperties.UpdatePatchesRow | app/models/book.js:119-145 | a successful update stores the patched row under its new key, removes the old key if renamed, and leaves every other row alone |
| BookProperties.UpdateWithoutIdKeepsKey | app/models/book.js:119-145 | an update whose object has no `id` keeps the set of keys and patches the row in place |
| BookProperties.PatchedRowValid | app/models/book.js:128-129 | a patch all of whose kept attributes passed their checks keeps a valid row valid |
| BookProperties.PatchedColumnValid | app/models/book.js:128-129 | each required column of such a patch holds an allowed value |
| BookProperties.UpdateKeepsRowsValid | app/models/book.js:119-145 | `updateBook` keeps every row within the data rules |
| BookProperties.DeleteThenGet | app/models/book.js:147-161 | after a delete that ran, `getBook` finds nothing under that id |
| BookProperties.DeleteKeepsRowsValid | app/models/book.js:147-161 | `deleteBook` keeps every row within the data rules |
| Store.BookStore.GetBooks | app/models/book.js:9-51 | the listing returned is `ListBooks` of the current table |
| Store.BookStore.GetBook | app/models/book.js:53-73 | the lookup returned is `FindBook` of the current table |
| Store.BookStore.AddBook | app/models/book.js:98-117 | result and new table are those of `AddBookStep` on the old table; valid rows stay valid |
| Store.BookStore.UpdateBook | app/models/book.js:119-145 | the `forEach` runs inside; result and new table are those of `UpdateBookStep`; valid rows stay valid |
| Store.BookStore.DeleteBook | app/models/book.js:147-161 | result and new table are those of `DeleteBookStep`; valid rows stay valid |
| ApiKeys.MatchCount | app/models/apiKey.js:8-13 | the existence query's `rowCount` is positive exactly when some record has the key and expires after now |
| ApiKeys.IsApiKeyValid | app/models/apiKey.js:3-21 | always `true`, `false` or `undefined`. `undefined` exactly for a non-string key or storage failure; `true` exactly when a live record matches; `false` exactly when none does |
| ApiKeys.ExpiringNowIsRefused | app/models/apiKey.js:12 | expiry is strict: a record expiring exactly now does not validate |
| ApiKeys.ValidEarlier | app/models/apiKey.js:12 | a key valid now was valid at every earlier instant |
| ApiKeys.IssueKeepsValidity | app/models/apiKey.js:8-13 | issuing a record never invalidates a key; a record for another key changes nothing |
| Auth.ExtractApiKey | app/auth.js:9 | the key is the header without its first six characters, empty for a header of six or fewer |
| Auth.SchemeIsIgnored | app/auth.js:9 | any six characters followed by a key yield that key |
| Auth.AfterLookup | app/auth.js:11-20 | `next` exactly when the lookup returned neither `undefined` nor `false`; 401 exactly for `false`; 500 otherwise |
| Auth.CheckApiKey | app/auth.js:3-21 | a missing header gives 400 with its message; otherwise the decision is taken on the lookup of the extracted key |
| Auth.AdmitsExactlyValidKeys | app/auth.js:3-21 | a request reaches the router exactly when a header is present and some record holds its key with expiry after now |
| Auth.RefusalsWithHeader | app/auth.js:11-18 | with a header: storage failure gives 500, a key with no live record gives 401 |
| Auth.SchemeDoesNotMatter | app/auth.js:9 | headers differing only in their first six characters get the same decision |
| BookRoutes.CatchResponse | app/routes/book.js:83-87 | an InvalidArgumentError becomes 400 with its message; any other error a bare 500 |
| BookRoutes.DescFlag | app/routes/book.js:78 | the flag is a boolean, `false` exactly when the `desc` parameter is absent |
| BookRoutes.ListResponse | app/routes/book.js:74-93 | 200 with the rows exactly when rows came back; a thrown error as caught; `undefined` gives 500 |
| BookRoutes.GetResponse | app/routes/book.js:95-110 | 500 exactly for `undefined`, 404 exactly for `null`, both with the bare status text (`sendStatus`); 200 with the row exactly when found |
| BookRoutes.CreateResponse | app/routes/book.js:112-132 | 201 with the generated id and message exactly when the insert ran; a thrown error as caught; `undefined` gives 500 |
| BookRoutes.RowCountOf | app/routes/book.js:150 | reading `rowCount` throws a TypeError exactly on `undefined`, else gives the count |
| BookRoutes.CommandResponse | app/routes/book.js:150-152 | 404 for count 0, 204 for a positive count, a thrown TypeError for `undefined`; never the 500 |
| BookRoutes.PatchResponse | app/routes/book.js:134-153 | a thrown error as caught, else the shared tail; 204 exactly when the update touched a row |
| BookRoutes.RequestBody.DeleteProperty | app/routes/book.js:139 | the body afterwards is the old body without the property |
| BookRoutes.ListBooksRoute | app/routes/book.js:74-93 | responds with the listing of the current table for the query's parameters and the `desc` flag |
| BookRoutes.GetBookRoute | app/routes/book.js:95-110 | responds with the lookup of the current table |
| BookRoutes.CreateBookRoute | app/routes/book.js:112-132 | adds the body's four attributes under the generated id and responds accordingly |
| BookRoutes.PatchBookRoute | app/routes/book.js:134-153 | a missing id gives 404 `BookId is missing` and changes nothing; otherwise the body loses `id` in place, then the update runs and its response is sent |
| BookRoutes.DeleteBookRoute | app/routes/book.js:155-167 | deletes through the model and responds with the shared tail |
| BookRoutes.GateResponse | app/auth.js:5-18 | the middleware's refusal status, with the message when it has one and the status text (`sendStatus`) when it has none |
| BookRoutes.Serve | app/app.js:11-13 | a request the key check refuses gets the refusal and leaves the table unchanged; a request it admits gets exactly the response of its route (list, read, create, patch with the body's `id` removed, delete) and the table that route's model step leaves; listing and reading never change the table |
| BookRoutes.ListRouteDirection | app/routes/book.js:78 | the route never triggers the `desc` error; it lists descending exactly when the `desc` parameter is present, whatever its value |
| BookRoutes.LimitParameterBoundsListing | app/routes/book.js:74-93 | `?limit=n` returns at most `n` books |
| BookRoutes.CreateThenGet | app/routes/book.js:112-132 | a book created through POST is served by `GET /:bookId` with the body's values |
| BookRoutes.PatchKeepsId | app/routes/book.js:138-139 | after a 204 from PATCH the book keeps its id and the key set is unchanged; columns the body did not name are unchanged |
| BookRoutes.StorageFailureThrows | app/routes/book.js:150-152 | a storage failure on PATCH or DELETE makes the handler throw a TypeError instead of sending 500 |

## Left out

- Database I/O (`app/db.js`): the connection and the SQL text are not modelled. The table is a map from primary key to row. A storage failure is the input `dbFails`; for `isApiKeyValid` it is `keyDbFails`.
- Logging (`app/loggers.js`, `console.error`), the error handler and mailer (`app/errorHandler.js`, `app/mailer.js`), and the Swagger document (`app/swagger.js`): not modelled. Log calls are treated as having no effect.
- Identifier generation and time: the UUID of `POST` and the table's `now()` are inputs.
- Numbers: modelled as integers.
  - Fractions, NaN and infinities are not modelled, nor `typeof NaN === 'number'` letting NaN pass `value < 0`.
  - `+s` on strings is modelled only for an optional sign followed by decimal digits, and for the empty string. Whitespace, decimals, exponents and hex strings are not modelled.
  - Arrays and other object kinds are plain objects or NaN.
  - The range of numbers is not modelled: every integer is exact and unbounded. JavaScript loses precision above 2^53, and PostgreSQL refuses a `limit` or `offset` above 2^63-1 and values beyond the range of the `price` and `year_published` columns (whose definitions are not part of this model). So `?limit=99999999999999999999` lists every row with 200 in the model, while the service answers 500; the same holds for `offset`.
  - Observable differences in the query string: `?limit=%205` (a leading space) and `?limit=1e1` answer 400 in the model but 200 from the service, which reads 5 and 10. `?limit=2.5` answers 400 in the model but 500 from the service, whose database refuses 2.5 as a row count. The same holds for `offset`.
  - Observable differences in a JSON body: a fractional `price` or `year_published` such as `2.5` cannot be written in the model, so its fate in the service (stored, rounded or refused, by the column type) is not covered.
- Column types: the table accepts only a value of the column's own type. PostgreSQL's implicit coercion of text to numbers or timestamps, and of numbers to text, is not modelled; such a statement counts as refused. `added_dttm` is an integer timestamp. `description` is the only nullable column. Observable differences:
  - `PATCH {"added_dttm": 5}` updates the row and answers 204 in the model. PostgreSQL refuses `'5'` as a timestamp, so `updateBook` yields `undefined` and the handler throws a TypeError.
  - `updateBook` called directly with `{id: 5}` is refused by the model's table (`undefined`), while PostgreSQL stores the text `'5'` and counts one row. Through `PATCH` both answer 400, because the handler deletes `id` before the call.
  - `PATCH {"price": "7"}` fails the price check (400) in both.
- Ordering: text compares by character code, not by a database collation. Rows with equal sort values are ordered by id; PostgreSQL leaves their order unspecified.
- Objects: property order is insertion order. JavaScript puts integer-like keys first in `Object.keys`; that is not modelled. Duplicate property names do not occur in a parsed JSON body. The model allows them; an update that would assign a column twice counts as refused.
- Concurrency and `async`: operations run one at a time. A handler that throws out of its async body is modelled as `HandlerThrew`; no response is sent.
- Express: route parameters arrive as strings in practice, but `GetBookRoute`, `DeleteBookRoute` and `PatchBookRoute` accept any value. They therefore also cover the `bookId === undefined` branch. The `catch` blocks of `GET /:bookId`, `DELETE` and the lookup in `checkApiKey` cannot be reached, because the functions they call catch their own errors. The model keeps no path into them.
