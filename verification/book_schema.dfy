/** The `book` table: its attribute list, its rows, and what a column
    accepts when a JavaScript value is bound into it. */
module BookSchema {
  import opened JsValues

  /** The six columns of `book`, in the order of `bookAttributesArray`. */
  datatype Column = Id | Author | Price | Description | YearPublished | AddedDttm

  /** `bookAttributesArray`: the whitelist shared by sorting, inserting and
      updating. */
  const BookAttributes: seq<string> :=
    ["id", "author", "price", "description", "year_published", "added_dttm"]

  const Columns: seq<Column> := [Id, Author, Price, Description, YearPublished, AddedDttm]

  function ColumnName(c: Column): (name: string)
    ensures name in BookAttributes
  {
    match c
    case Id => "id"
    case Author => "author"
    case Price => "price"
    case Description => "description"
    case YearPublished => "year_published"
    case AddedDttm => "added_dttm"
  }

  /** The column an attribute name denotes, if it is one of the six. */
  function ParseColumn(name: string): (r: Option<Column>)
    ensures r.Some? <==> name in BookAttributes
    ensures r.Some? ==> ColumnName(r.value) == name
  {
    if name == "id" then Some(Id)
    else if name == "author" then Some(Author)
    else if name == "price" then Some(Price)
    else if name == "description" then Some(Description)
    else if name == "year_published" then Some(YearPublished)
    else if name == "added_dttm" then Some(AddedDttm)
    else None
  }

  /** Every column's name is on the whitelist at the column's own position,
      and reading the name back gives the column. */
  lemma ColumnNamesRoundTrip()
    ensures |Columns| == |BookAttributes|
    ensures forall i :: 0 <= i < |Columns| ==> ColumnName(Columns[i]) == BookAttributes[i]
    ensures forall c: Column :: ParseColumn(ColumnName(c)) == Some(c)
  {
    forall c: Column ensures ParseColumn(ColumnName(c)) == Some(c) {
      match c
      case Id =>
      case Author =>
      case Price =>
      case Description =>
      case YearPublished =>
      case AddedDttm =>
    }
  }

  /** `insertBookAttrbiutes`: every attribute but the last, `added_dttm`,
      which the table fills with its default. */
  function InsertAttributes(): (names: seq<string>)
    ensures |names| == 5 && "added_dttm" !in names
    ensures names + ["added_dttm"] == BookAttributes
  {
    BookAttributes[..|BookAttributes| - 1]
  }

  /** A stored row. `description` is nullable; `addedDttm` is the
      creation timestamp the table assigns. */
  datatype Book = Book(
    id: string,
    author: string,
    price: int,
    description: Option<string>,
    yearPublished: int,
    addedDttm: int)

  /** A column of a row, read back as a JavaScript value. */
  function Cell(b: Book, c: Column): Value {
    match c
    case Id => Str(b.id)
    case Author => Str(b.author)
    case Price => Num(b.price)
    case Description => if b.description.Some? then Str(b.description.value) else Null
    case YearPublished => Num(b.yearPublished)
    case AddedDttm => Num(b.addedDttm)
  }

  /** The value a column holds after `v` is bound into it: the driver sends
      `undefined` as SQL NULL. */
  function Stored(v: Value): Value {
    if v == Undefined then Null else v
  }

  /** Whether a bound value is accepted by the column's type. Text columns
      take strings, numeric and timestamp columns take numbers, and only the
      nullable `description` takes NULL. */
  predicate Fits(c: Column, v: Value) {
    match c
    case Id => v.Str?
    case Author => v.Str?
    case Price => v.Num?
    case Description => v.Str? || v.Null? || v.Undefined?
    case YearPublished => v.Num?
    case AddedDttm => v.Num?
  }

  /** `set <column> = v` on one row. */
  function SetColumn(b: Book, c: Column, v: Value): (r: Book)
    requires Fits(c, v)
    ensures Cell(r, c) == Stored(v)
    ensures forall d :: d != c ==> Cell(r, d) == Cell(b, d)
  {
    match c
    case Id => b.(id := v.s)
    case Author => b.(author := v.s)
    case Price => b.(price := v.n)
    case Description => b.(description := if v.Str? then Some(v.s) else None)
    case YearPublished => b.(yearPublished := v.n)
    case AddedDttm => b.(addedDttm := v.n)
  }

  /** The row an insert of `(id, author, price, description,
      year_published)` creates, stamped with the table's current time. */
  function InsertedRow(values: seq<Value>, now: int): (r: Option<Book>)
    requires |values| == 5
    ensures r.Some? <==> forall i :: 0 <= i < 5 ==> Fits(Columns[i], values[i])
    ensures r.Some? ==> forall i :: 0 <= i < 5 ==> Cell(r.value, Columns[i]) == Stored(values[i])
    ensures r.Some? ==> r.value.addedDttm == now
  {
    if Fits(Id, values[0]) && Fits(Author, values[1]) && Fits(Price, values[2])
      && Fits(Description, values[3]) && Fits(YearPublished, values[4])
    then
      Some(Book(values[0].s, values[1].s, values[2].n,
                if values[3].Str? then Some(values[3].s) else None,
                values[4].n, now))
    else None
  }

  /** The data rules every book created or updated through the model keeps:
      a non-empty author and non-negative price and year. */
  predicate ValidRow(b: Book) {
    b.author != "" && b.price >= 0 && b.yearPublished >= 0
  }

  /** The table is keyed by the primary key `id`. */
  predicate Keyed(table: map<string, Book>) {
    forall k :: k in table ==> table[k].id == k
  }

  predicate AllRowsValid(table: map<string, Book>) {
    forall k :: k in table ==> ValidRow(table[k])
  }
}
