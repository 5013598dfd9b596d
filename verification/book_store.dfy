/** The book model as the service uses it: one object owning the `book`
    table, whose operations read it or replace it. */
module Store {
  import opened JsValues
  import opened Outcomes
  import opened BookSchema
  import opened BookValidation
  import opened BookQueries
  import opened BookTable
  import opened BookModel
  import opened BookProperties

  class BookStore {
    /** The rows of `book`, by primary key. */
    var books: map<string, Book>

    predicate Valid()
      reads this
    {
      Keyed(books)
    }

    constructor (initial: map<string, Book>)
      requires Keyed(initial)
      ensures Valid() && books == initial
    {
      books := initial;
    }

    /** `getBooks`. */
    method GetBooks(limit: Value, offset: Value, sortBy: Value, desc: Value, dbFails: bool)
      returns (r: Outcome<Listing>)
      requires Valid()
      ensures r == ListBooks(books, limit, offset, sortBy, desc, dbFails)
    {
      var query := GetBooksQuery(limit, offset, sortBy, desc);
      if query.Returned? && !dbFails {
        r := Returned(RunListQuery(books, query.value));
      } else if query.Returned? {
        r := Returned(ListingFailed);
      } else {
        r := Threw(query.exception);
      }
    }

    /** `getBook`. */
    method GetBook(bookId: Value, dbFails: bool) returns (r: Lookup)
      requires Valid()
      ensures r == FindBook(books, bookId, dbFails)
    {
      if !bookId.Str? || dbFails {
        return LookupFailed;
      }
      r := SelectById(books, bookId.s);
    }

    /** `addBook`; `now` is the time the table stamps the new row with. */
    method AddBook(id: Value, author: Value, price: Value, description: Value, yearPublished: Value,
                   now: int, dbFails: bool) returns (r: Outcome<CommandResult>)
      requires Valid()
      modifies this
      ensures Valid()
      ensures var s := AddBookStep(old(books), id, author, price, description, yearPublished, now, dbFails);
        r == s.result && books == s.table
      ensures AllRowsValid(old(books)) ==> AllRowsValid(books)
    {
      if AllRowsValid(books) {
        AddKeepsRowsValid(books, id, author, price, description, yearPublished, now, dbFails);
      }
      if !id.Str? || |id.s| == 0 {
        return Threw(PlainError(IdMessage));
      }
      var _ :- ValidateNewBook(author, price, yearPublished, description);
      if dbFails {
        return Returned(CommandFailed);
      }
      var e := InsertRow(books, [id, author, price, description, yearPublished], now);
      books := e.table;
      r := Returned(e.result);
    }

    /** `updateBook`; the statement is assembled by the `forEach` loop. */
    method UpdateBook(bookId: Value, newAttributes: Value, dbFails: bool) returns (r: Outcome<CommandResult>)
      requires Valid()
      modifies this
      ensures Valid()
      ensures var s := UpdateBookStep(old(books), bookId, newAttributes, dbFails);
        r == s.result && books == s.table
      ensures AllRowsValid(old(books)) ==> AllRowsValid(books)
    {
      if AllRowsValid(books) {
        UpdateKeepsRowsValid(books, bookId, newAttributes, dbFails);
      }
      if !bookId.Str? || |bookId.s| == 0 {
        return Threw(PlainError(IdMessage));
      }
      if !TypeOfIsObject(newAttributes) {
        return Threw(InvalidArgumentError(AttributesObjectMessage));
      }
      if newAttributes.Null? {
        return Threw(TypeError);
      }
      var valid := KeptAttributes(Names(newAttributes.props));
      if valid == [] {
        return Threw(InvalidArgumentError(NoValidAttributeMessage));
      }
      var stmt :- BuildUpdate(bookId.s, newAttributes.props, valid);
      if dbFails {
        return Returned(CommandFailed);
      }
      var e := RunUpdate(books, stmt);
      books := e.table;
      r := Returned(e.result);
    }

    /** `deleteBook`. */
    method DeleteBook(bookId: Value, dbFails: bool) returns (r: CommandResult)
      requires Valid()
      modifies this
      ensures Valid()
      ensures var e := DeleteBookStep(old(books), bookId, dbFails);
        r == e.result && books == e.table
      ensures AllRowsValid(old(books)) ==> AllRowsValid(books)
    {
      if !bookId.Str? || dbFails {
        return CommandFailed;
      }
      var e := DeleteById(books, bookId.s);
      books := e.table;
      r := e.result;
    }
  }
}
