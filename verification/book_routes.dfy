/** The `/book` router: each handler calls the book model and turns its
    outcome, or the error it threw, into an HTTP status and body. */
module BookRoutes {
  import opened JsValues
  import opened Outcomes
  import opened BookSchema
  import opened BookOrdering
  import opened BookQueries
  import opened BookTable
  import opened BookModel
  import opened BookProperties
  import opened Store
  import opened ApiKeys
  import opened Auth

  const BookIdMissingMessage := "BookId is missing"
  const CreatedMessage := "Book has been created"

  /** A response body: the status text that `sendStatus` sends, or one of
      the JSON bodies the handlers build. */
  datatype Body =
    | StatusText
    | Message(message: string)
    | OneBook(book: Book)
    | BookList(books: seq<Book>)
    | Created(id: string, message: string)

  datatype Response = Response(status: int, body: Body)

  /** A handler either responds, or throws out of its async body without
      responding. */
  datatype HandlerResult = Responded(response: Response) | HandlerThrew(exception: Exception)

  /** The `catch` of `GET /`, `POST` and `PATCH`: an InvalidArgumentError
      is the client's fault and its message is returned; anything else is
      a bare 500. */
  function CatchResponse(e: Exception): (res: Response)
    ensures e.InvalidArgumentError? ==> res == Response(400, Message(e.message))
    ensures !e.InvalidArgumentError? ==> res == Response(500, StatusText)
  {
    if e.InvalidArgumentError? then Response(400, Message(e.message)) else Response(500, StatusText)
  }

  /** `req.query.desc !== undefined ? true : false`. */
  function DescFlag(desc: Value): (flag: Value)
    ensures flag.Bool?
    ensures flag == Bool(false) <==> desc == Undefined
  {
    Bool(desc != Undefined)
  }

  // ---------------------------------------------------------------------
  // Status decisions
  // ---------------------------------------------------------------------

  /** `GET /` after `getBooks`. */
  function ListResponse(r: Outcome<Listing>): (res: Response)
    ensures res.status == 200 <==> r.Returned? && r.value.Rows?
    ensures res.status == 200 ==> res.body == BookList(r.value.rows)
    ensures r.Threw? ==> res == CatchResponse(r.exception)
    ensures r == Returned(ListingFailed) ==> res == Response(500, StatusText)
  {
    match r
    case Threw(e) => CatchResponse(e)
    case Returned(ListingFailed) => Response(500, StatusText)
    case Returned(Rows(rows)) => Response(200, BookList(rows))
  }

  /** `GET /:bookId` after `getBook`. */
  function GetResponse(r: Lookup): (res: Response)
    ensures res.status == 500 <==> r.LookupFailed?
    ensures res.status == 404 <==> r.NotFound?
    ensures res.status == 200 <==> r.Found?
    ensures r.Found? ==> res.body == OneBook(r.book)
    ensures !r.Found? ==> res.body == StatusText
  {
    match r
    case LookupFailed => Response(500, StatusText)
    case NotFound => Response(404, StatusText)
    case Found(b) => Response(200, OneBook(b))
  }

  /** `POST /` after `addBook` with the generated id. */
  function CreateResponse(id: string, r: Outcome<CommandResult>): (res: Response)
    ensures res.status == 201 <==> r.Returned? && r.value.RowCount?
    ensures res.status == 201 ==> res.body == Created(id, CreatedMessage)
    ensures r.Threw? ==> res == CatchResponse(r.exception)
    ensures r == Returned(CommandFailed) ==> res == Response(500, StatusText)
  {
    match r
    case Threw(e) => CatchResponse(e)
    case Returned(CommandFailed) => Response(500, StatusText)
    case Returned(RowCount(_)) => Response(201, Created(id, CreatedMessage))
  }

  /** `resp.rowCount` read from a model result: `undefined` has no
      properties, so reading one throws a TypeError. */
  function RowCountOf(r: CommandResult): (count: Outcome<nat>)
    ensures count.Threw? <==> r.CommandFailed?
    ensures count.Threw? ==> count.exception == TypeError
    ensures r.RowCount? ==> count == Returned(r.count)
  {
    match r
    case CommandFailed => Threw(TypeError)
    case RowCount(n) => Returned(n)
  }

  /** The tail shared by `PATCH` and `DELETE`: 404 when `rowCount` is 0,
      then the `undefined` check, then 204. The count is read first, so an
      `undefined` result throws before the check that would give 500. */
  function CommandResponse(r: CommandResult): (res: HandlerResult)
    ensures r.CommandFailed? ==> res == HandlerThrew(TypeError)
    ensures r == RowCount(0) ==> res == Responded(Response(404, StatusText))
    ensures r.RowCount? && r.count > 0 ==> res == Responded(Response(204, StatusText))
    ensures res != Responded(Response(500, StatusText))
  {
    match RowCountOf(r)
    case Threw(e) => HandlerThrew(e)
    case Returned(count) =>
      if count == 0 then Responded(Response(404, StatusText))
      else if r.CommandFailed? then Responded(Response(500, StatusText))
      else Responded(Response(204, StatusText))
  }

  /** `PATCH /:bookId` after `updateBook`. */
  function PatchResponse(r: Outcome<CommandResult>): (res: HandlerResult)
    ensures r.Threw? ==> res == Responded(CatchResponse(r.exception))
    ensures r.Returned? ==> res == CommandResponse(r.value)
    ensures res == Responded(Response(204, StatusText)) <==> r.Returned? && r.value.RowCount? && r.value.count > 0
  {
    match r
    case Threw(e) => Responded(CatchResponse(e))
    case Returned(c) => CommandResponse(c)
  }

  // ---------------------------------------------------------------------
  // The request body of PATCH, changed in place
  // ---------------------------------------------------------------------

  /** A parsed JSON request body: an object whose properties the handler
      may delete. */
  class RequestBody {
    var props: seq<Prop>

    constructor (initial: seq<Prop>)
      ensures props == initial
    {
      props := initial;
    }

    /** `delete body[name]`. */
    method DeleteProperty(name: string)
      modifies this
      ensures props == Delete(old(props), name)
    {
      props := Delete(props, name);
    }
  }

  // ---------------------------------------------------------------------
  // The handlers
  // ---------------------------------------------------------------------

  /** `GET /`; `query` is the parsed query string. */
  method ListBooksRoute(store: BookStore, query: seq<Prop>, dbFails: bool) returns (res: Response)
    requires store.Valid()
    ensures res == ListResponse(ListBooks(store.books, Get(query, "limit"), Get(query, "offset"),
                                          Get(query, "sortBy"), DescFlag(Get(query, "desc")), dbFails))
  {
    var desc := DescFlag(Get(query, "desc"));
    var books := store.GetBooks(Get(query, "limit"), Get(query, "offset"), Get(query, "sortBy"), desc, dbFails);
    res := ListResponse(books);
  }

  /** `GET /:bookId`. */
  method GetBookRoute(store: BookStore, bookId: Value, dbFails: bool) returns (res: Response)
    requires store.Valid()
    ensures res == GetResponse(FindBook(store.books, bookId, dbFails))
  {
    var book := store.GetBook(bookId, dbFails);
    res := GetResponse(book);
  }

  /** `POST /`; `id` is the identifier the handler generates and `now` the
      time the table stamps the row with. */
  method CreateBookRoute(store: BookStore, body: seq<Prop>, id: string, now: int, dbFails: bool)
    returns (res: Response)
    requires store.Valid()
    modifies store
    ensures store.Valid()
    ensures var s := AddBookStep(old(store.books), Str(id), Get(body, "author"), Get(body, "price"),
                                 Get(body, "description"), Get(body, "year_published"), now, dbFails);
      res == CreateResponse(id, s.result) && store.books == s.table
  {
    var resp := store.AddBook(Str(id), Get(body, "author"), Get(body, "price"), Get(body, "description"),
                              Get(body, "year_published"), now, dbFails);
    res := CreateResponse(id, resp);
  }

  /** `PATCH /:bookId`: the body loses its `id` before it reaches the
      model. */
  method PatchBookRoute(store: BookStore, bookId: Value, body: RequestBody, dbFails: bool)
    returns (res: HandlerResult)
    requires store.Valid()
    modifies store, body
    ensures store.Valid()
    ensures bookId == Undefined ==>
      res == Responded(Response(404, Message(BookIdMissingMessage))) &&
      store.books == old(store.books) && body.props == old(body.props)
    ensures bookId != Undefined ==>
      && body.props == Delete(old(body.props), "id")
      && var s := UpdateBookStep(old(store.books), bookId, Obj(body.props), dbFails);
      && res == PatchResponse(s.result)
      && store.books == s.table
  {
    if bookId == Undefined {
      return Responded(Response(404, Message(BookIdMissingMessage)));
    }
    body.DeleteProperty("id");
    var resp := store.UpdateBook(bookId, Obj(body.props), dbFails);
    res := PatchResponse(resp);
  }

  /** `DELETE /:bookId`. Its `catch` cannot be reached: `deleteBook`
      turns every failure into `undefined`. */
  method DeleteBookRoute(store: BookStore, bookId: Value, dbFails: bool) returns (res: HandlerResult)
    requires store.Valid()
    modifies store
    ensures store.Valid()
    ensures var e := DeleteBookStep(old(store.books), bookId, dbFails);
      res == CommandResponse(e.result) && store.books == e.table
  {
    var resp := store.DeleteBook(bookId, dbFails);
    res := CommandResponse(resp);
  }

  // ---------------------------------------------------------------------
  // The application: the key check runs before the router
  // ---------------------------------------------------------------------

  /** A request to the `/book` router. */
  datatype Request =
    | ListRequest(query: seq<Prop>)
    | GetRequest(bookId: Value)
    | CreateRequest(body: seq<Prop>, newId: string, now: int)
    | PatchRequest(bookId: Value, patch: seq<Prop>)
    | DeleteRequest(bookId: Value)

  /** The response `checkApiKey` sends when it does not call `next`. */
  function GateResponse(d: Decision): (res: Response)
    requires d.Reject?
    ensures res.status == d.status
    ensures d.message.Some? ==> res.body == Message(d.message.value)
    ensures d.message.None? ==> res.body == StatusText
  {
    Response(d.status, if d.message.Some? then Message(d.message.value) else StatusText)
  }

  /** One request through the application: the key check, then, only if
      it calls `next`, the handler. */
  method Serve(store: BookStore, header: Option<string>, keys: seq<KeyRecord>, now: int, keyDbFails: bool,
               request: Request, dbFails: bool) returns (res: HandlerResult)
    requires store.Valid()
    modifies store
    ensures store.Valid()
    ensures CheckApiKey(header, keys, now, keyDbFails) != Next ==>
      res == Responded(GateResponse(CheckApiKey(header, keys, now, keyDbFails))) &&
      store.books == old(store.books)
    ensures request.ListRequest? || request.GetRequest? ==> store.books == old(store.books)
    ensures CheckApiKey(header, keys, now, keyDbFails) == Next && request.ListRequest? ==>
      var query := request.query;
      res == Responded(ListResponse(ListBooks(old(store.books), Get(query, "limit"), Get(query, "offset"),
                                              Get(query, "sortBy"), DescFlag(Get(query, "desc")), dbFails)))
    ensures CheckApiKey(header, keys, now, keyDbFails) == Next && request.GetRequest? ==>
      res == Responded(GetResponse(FindBook(old(store.books), request.bookId, dbFails)))
    ensures CheckApiKey(header, keys, now, keyDbFails) == Next && request.CreateRequest? ==>
      var body := request.body;
      var s := AddBookStep(old(store.books), Str(request.newId), Get(body, "author"), Get(body, "price"),
                           Get(body, "description"), Get(body, "year_published"), request.now, dbFails);
      res == Responded(CreateResponse(request.newId, s.result)) && store.books == s.table
    ensures CheckApiKey(header, keys, now, keyDbFails) == Next && request.PatchRequest? ==>
      if request.bookId == Undefined then
        res == Responded(Response(404, Message(BookIdMissingMessage))) && store.books == old(store.books)
      else
        var s := UpdateBookStep(old(store.books), request.bookId, Obj(Delete(request.patch, "id")), dbFails);
        res == PatchResponse(s.result) && store.books == s.table
    ensures CheckApiKey(header, keys, now, keyDbFails) == Next && request.DeleteRequest? ==>
      var e := DeleteBookStep(old(store.books), request.bookId, dbFails);
      res == CommandResponse(e.result) && store.books == e.table
  {
    var gate := CheckApiKey(header, keys, now, keyDbFails);
    if gate.Reject? {
      return Responded(GateResponse(gate));
    }
    match request
    case ListRequest(query) =>
      var r := ListBooksRoute(store, query, dbFails);
      res := Responded(r);
    case GetRequest(bookId) =>
      var r := GetBookRoute(store, bookId, dbFails);
      res := Responded(r);
    case CreateRequest(body, newId, time) =>
      var r := CreateBookRoute(store, body, newId, time, dbFails);
      res := Responded(r);
    case PatchRequest(bookId, patch) =>
      var body := new RequestBody(patch);
      res := PatchBookRoute(store, bookId, body, dbFails);
    case DeleteRequest(bookId) =>
      res := DeleteBookRoute(store, bookId, dbFails);
  }

  // ---------------------------------------------------------------------
  // What the routes promise
  // ---------------------------------------------------------------------

  /** The route never sends a `desc` the model refuses, and lists in
      ascending order unless the `desc` parameter is present, whatever its
      value. */
  lemma ListRouteDirection(table: map<string, Book>, query: seq<Prop>, dbFails: bool)
    requires Keyed(table)
    ensures var r := ListBooks(table, Get(query, "limit"), Get(query, "offset"), Get(query, "sortBy"),
                               DescFlag(Get(query, "desc")), dbFails);
      && (r.Threw? ==> r.exception.message != DescMessage)
      && (r.Returned? && r.value.Rows? ==>
            Ordered(r.value.rows, SortColumn(Get(query, "sortBy")), Get(query, "desc") != Undefined))
  {
    var flag := DescFlag(Get(query, "desc"));
    assert flag.Bool?;
    assert flag != Bool(false) <==> Get(query, "desc") != Undefined;
  }

  /** `?limit=n` returns at most `n` books. */
  lemma LimitParameterBoundsListing(table: map<string, Book>, query: seq<Prop>, n: nat, dbFails: bool)
    requires Keyed(table)
    requires Get(query, "limit") == Str(DecimalString(n))
    requires ListBooksResponse(table, query, dbFails).status == 200
    ensures |ListBooksResponse(table, query, dbFails).body.books| <= n
  {
    DecimalRoundTrip(n);
  }

  /** The response of `GET /` for a table and a query string. */
  function ListBooksResponse(table: map<string, Book>, query: seq<Prop>, dbFails: bool): (res: Response)
    requires Keyed(table)
    ensures res.status == 200 ==> res.body.BookList?
  {
    ListResponse(ListBooks(table, Get(query, "limit"), Get(query, "offset"), Get(query, "sortBy"),
                           DescFlag(Get(query, "desc")), dbFails))
  }

  /** A book created through `POST` is served by `GET /:bookId` with the
      values the body gave. */
  lemma CreateThenGet(table: map<string, Book>, body: seq<Prop>, id: string, now: int)
    requires Keyed(table)
    requires CreateResponse(id, AddBookStep(table, Str(id), Get(body, "author"), Get(body, "price"),
               Get(body, "description"), Get(body, "year_published"), now, false).result).status == 201
    ensures var after := AddBookStep(table, Str(id), Get(body, "author"), Get(body, "price"),
                                     Get(body, "description"), Get(body, "year_published"), now, false).table;
      var res := GetResponse(FindBook(after, Str(id), false));
      && res.status == 200
      && Cell(res.body.book, Author) == Get(body, "author")
      && Cell(res.body.book, Price) == Get(body, "price")
      && Cell(res.body.book, Description) == Stored(Get(body, "description"))
      && Cell(res.body.book, YearPublished) == Get(body, "year_published")
  {
    AddThenGet(table, id, Get(body, "author"), Get(body, "price"), Get(body, "description"),
               Get(body, "year_published"), now);
  }

  /** `PATCH` cannot change a book's id: whatever the body holds, a book
      the route updated stays under its id, and no other key appears or
      disappears. */
  lemma PatchKeepsId(table: map<string, Book>, bookId: string, patch: seq<Prop>, dbFails: bool)
    requires Keyed(table)
    requires PatchResponse(UpdateBookStep(table, Str(bookId), Obj(Delete(patch, "id")), dbFails).result)
             == Responded(Response(204, StatusText))
    ensures var after := UpdateBookStep(table, Str(bookId), Obj(Delete(patch, "id")), dbFails).table;
      && bookId in table && after.Keys == table.Keys && after[bookId].id == bookId
      && forall c :: c != Id && ColumnName(c) !in Names(patch) ==> Cell(after[bookId], c) == Cell(table[bookId], c)
  {
    var props := Delete(patch, "id");
    var s := UpdateBookStep(table, Str(bookId), Obj(props), dbFails);
    assert s.result.Returned? && s.result.value.RowCount? && s.result.value.count > 0;
    assert s.result == Returned(RowCount(1));
    UpdateWithoutIdKeepsKey(table, bookId, props, dbFails);
    forall c | c != Id && ColumnName(c) !in Names(patch)
      ensures Cell(s.table[bookId], c) == Cell(table[bookId], c)
    {
      NamesAfterDelete(patch, "id", ColumnName(c));
    }
  }

  /** A storage failure on `PATCH` or `DELETE` never produces the 500 the
      handlers intend: the handler throws instead. */
  lemma StorageFailureThrows(table: map<string, Book>, bookId: Value, patch: Value)
    requires Keyed(table)
    ensures UpdateBookStep(table, bookId, patch, true).result.Returned? ==>
      PatchResponse(UpdateBookStep(table, bookId, patch, true).result) == HandlerThrew(TypeError)
    ensures CommandResponse(DeleteBookStep(table, bookId, true).result) == HandlerThrew(TypeError)
  {
  }
}
