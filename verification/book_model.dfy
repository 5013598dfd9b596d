/** The five operations of the book model (`getBooks`, `getBook`,
    `addBook`, `updateBook`, `deleteBook`): each one's outcome as a
    function of the table and the arguments, the object that holds the
    table and performs them, and what the operations promise together. */
module BookModel {
  import opened JsValues
  import opened Outcomes
  import opened BookSchema
  import opened BookValidation
  import opened BookOrdering
  import opened BookQueries
  import opened BookTable

  const IdMessage := "Id must be a string and longer than 0"

  /** An operation's outcome together with the table after it. */
  datatype Step<+T> = Step(result: Outcome<T>, table: map<string, Book>)

  /** The column a listing is ordered by. */
  function SortColumn(sortBy: Value): Column {
    if sortBy.Str? && sortBy.s in BookAttributes then ParseColumn(sortBy.s).value else AddedDttm
  }

  // ---------------------------------------------------------------------
  // getBooks
  // ---------------------------------------------------------------------

  /** `getBooks`: the argument checks, then the listing, or `undefined`
      (ListingFailed) when the table refuses or cannot run the statement. */
  function ListBooks(table: map<string, Book>, limit: Value, offset: Value, sortBy: Value, desc: Value,
                     dbFails: bool): (r: Outcome<Listing>)
    requires Keyed(table)
    ensures r.Threw? <==> GetBooksQuery(limit, offset, sortBy, desc).Threw?
    ensures (!NotANumber(limit) && !NotANumber(offset) && (sortBy == Undefined || IsBookAttribute(sortBy)) &&
             (desc == Undefined || desc.Bool?)) ==> r.Returned?
    ensures r.Threw? ==> r.exception == GetBooksQuery(limit, offset, sortBy, desc).exception
    ensures r.Returned? ==>
      (r.value.ListingFailed? <==>
        dbFails || (limit != Undefined && Negative(ToNumber(limit))) ||
        (offset != Undefined && Negative(ToNumber(offset))))
    ensures r.Returned? && r.value.Rows? ==>
      && Ordered(r.value.rows, SortColumn(sortBy), desc != Bool(false))
      && (forall i :: 0 <= i < |r.value.rows| ==>
            r.value.rows[i].id in table && table[r.value.rows[i].id] == r.value.rows[i])
      && (limit != Undefined ==> |r.value.rows| <= ToNumber(limit).value)
      && (limit == Undefined && offset == Undefined ==>
            |r.value.rows| == |table| && forall k :: k in table ==> table[k] in r.value.rows)
  {
    var query := GetBooksQuery(limit, offset, sortBy, desc);
    if query.Threw? then Threw(query.exception)
    else if dbFails then Returned(ListingFailed)
    else Returned(RunListQuery(table, query.value))
  }

  // ---------------------------------------------------------------------
  // getBook
  // ---------------------------------------------------------------------

  /** `getBook`: `undefined` (LookupFailed) for a non-string id or a
      storage error, `null` (NotFound) when no row has the id. */
  function FindBook(table: map<string, Book>, bookId: Value, dbFails: bool): (r: Lookup)
    requires Keyed(table)
    ensures r.LookupFailed? <==> !bookId.Str? || dbFails
    ensures r.NotFound? <==> bookId.Str? && !dbFails && bookId.s !in table
    ensures r.Found? ==> bookId.Str? && bookId.s in table && r.book == table[bookId.s] && r.book.id == bookId.s
  {
    if !bookId.Str? || dbFails then LookupFailed else SelectById(table, bookId.s)
  }

  // ---------------------------------------------------------------------
  // addBook
  // ---------------------------------------------------------------------

  /** `addBook`: a plain error for a bad id, then the four checks, then the
      insert; `undefined` (CommandFailed) when the insert does not happen. */
  function AddBookStep(table: map<string, Book>, id: Value, author: Value, price: Value, description: Value,
                       yearPublished: Value, now: int, dbFails: bool): (s: Step<CommandResult>)
    requires Keyed(table)
    ensures Keyed(s.table)
    ensures s.result != Returned(RowCount(1)) ==> s.table == table
    ensures !id.Str? || |id.s| == 0 ==> s.result == Threw(PlainError(IdMessage))
    ensures id.Str? && |id.s| > 0 ==>
      && (s.result.Threw? <==> ValidateNewBook(author, price, yearPublished, description).Threw?)
      && (s.result.Threw? ==>
            s.result.exception == ValidateNewBook(author, price, yearPublished, description).exception)
    ensures s.result.Returned? ==>
      && (s.result.value == CommandFailed <==> dbFails || id.s in table)
      && (s.result.value == CommandFailed || s.result.value == RowCount(1))
    ensures s.result == Returned(RowCount(1)) ==>
      id.s !in table && s.table.Keys == table.Keys + {id.s} &&
      forall k :: k in table ==> s.table[k] == table[k]
  {
    if !id.Str? || |id.s| == 0 then Step(Threw(PlainError(IdMessage)), table)
    else match ValidateNewBook(author, price, yearPublished, description)
      case Threw(e) => Step(Threw(e), table)
      case Returned(_) =>
        ValidatedBookIsValidRow(id.s, author, price, yearPublished, description, now);
        if dbFails then Step(Returned(CommandFailed), table)
        else
          var e := InsertRow(table, [id, author, price, description, yearPublished], now);
          Step(Returned(e.result), e.table)
  }

  // ---------------------------------------------------------------------
  // updateBook
  // ---------------------------------------------------------------------

  /** `updateBook`. `typeof null` is `'object'`, so `null` passes the object
      check and `Object.keys(null)` then throws a TypeError. */
  function UpdateBookStep(table: map<string, Book>, bookId: Value, newAttributes: Value,
                          dbFails: bool): (s: Step<CommandResult>)
    requires Keyed(table)
    ensures Keyed(s.table)
    ensures s.result != Returned(RowCount(1)) ==> s.table == table
    ensures !bookId.Str? || |bookId.s| == 0 ==> s.result == Threw(PlainError(IdMessage))
    ensures bookId.Str? && |bookId.s| > 0 && !TypeOfIsObject(newAttributes) ==>
      s.result == Threw(InvalidArgumentError(AttributesObjectMessage))
    ensures bookId.Str? && |bookId.s| > 0 && newAttributes.Null? ==> s.result == Threw(TypeError)
    ensures bookId.Str? && |bookId.s| > 0 && newAttributes.Obj? &&
            KeptAttributes(Names(newAttributes.props)) == [] ==>
      s.result == Threw(InvalidArgumentError(NoValidAttributeMessage))
    ensures bookId.Str? && |bookId.s| > 0 && newAttributes.Obj? &&
            KeptAttributes(Names(newAttributes.props)) != [] ==>
      && (s.result.Threw? <==> !AllPass(newAttributes.props, KeptAttributes(Names(newAttributes.props))))
      && (s.result.Threw? ==> s.result.exception.InvalidArgumentError?)
    ensures s.result.Returned? ==>
      && bookId.Str? && newAttributes.Obj?
      && (dbFails ==> s.result.value == CommandFailed)
      && (s.result.value == RowCount(0) ==> bookId.s !in table)
      && (s.result.value == RowCount(0) || s.result.value == RowCount(1) || s.result.value == CommandFailed)
  {
    if !bookId.Str? || |bookId.s| == 0 then Step(Threw(PlainError(IdMessage)), table)
    else if !TypeOfIsObject(newAttributes) then
      Step(Threw(InvalidArgumentError(AttributesObjectMessage)), table)
    else if newAttributes.Null? then Step(Threw(TypeError), table)
    else
      var valid := KeptAttributes(Names(newAttributes.props));
      if valid == [] then Step(Threw(InvalidArgumentError(NoValidAttributeMessage)), table)
      else RunPlan(table, bookId.s, newAttributes.props, valid, dbFails)
  }

  /** The statement the `forEach` builds, then run against the table. */
  function RunPlan(table: map<string, Book>, bookId: string, props: seq<Prop>, valid: seq<string>,
                   dbFails: bool): (s: Step<CommandResult>)
    requires Keyed(table) && forall a :: a in valid ==> a in BookAttributes
    ensures Keyed(s.table)
    ensures s.result != Returned(RowCount(1)) ==> s.table == table
    ensures s.result.Threw? <==> !AllPass(props, valid)
    ensures s.result.Threw? ==> s.result.exception.InvalidArgumentError?
    ensures s.result.Returned? ==>
      && (dbFails ==> s.result.value == CommandFailed)
      && (s.result.value == RowCount(0) ==> bookId !in table)
      && (s.result.value == RowCount(0) || s.result.value == RowCount(1) || s.result.value == CommandFailed)
  {
    UpdatePlanSucceedsIff(bookId, props, valid);
    match UpdatePlan(bookId, props, valid)
    case Threw(e) => Step(Threw(e), table)
    case Returned(stmt) =>
      UpdatePlanNumbering(bookId, props, valid, stmt);
      if dbFails then Step(Returned(CommandFailed), table)
      else
        var e := RunUpdate(table, stmt);
        Step(Returned(e.result), e.table)
  }

  // ---------------------------------------------------------------------
  // deleteBook
  // ---------------------------------------------------------------------

  /** `deleteBook`: `undefined` (CommandFailed) for a non-string id or a
      storage error, otherwise the number of rows removed. */
  function DeleteBookStep(table: map<string, Book>, bookId: Value, dbFails: bool): (e: Effect)
    requires Keyed(table)
    ensures Keyed(e.table)
    ensures e.result.CommandFailed? <==> !bookId.Str? || dbFails
    ensures e.result.CommandFailed? ==> e.table == table
    ensures e.result.RowCount? ==>
      && e.result.count == (if bookId.s in table then 1 else 0)
      && e.table == table - {bookId.s}
    ensures bookId.Str? && bookId.s !in table ==> e.table == table
  {
    if !bookId.Str? || dbFails then Effect(CommandFailed, table)
    else DeleteById(table, bookId.s)
  }
}
