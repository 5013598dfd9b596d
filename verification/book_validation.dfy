/** The per-attribute rules that `addBook` and `updateBook` apply before
    they touch the table. */
module BookValidation {
  import opened JsValues
  import opened Outcomes
  import opened BookSchema

  const AuthorMessage := "Author must be a string and longer than 0"
  const PriceMessage := "Price must be a number and must be larger or equal than 0"
  const DescriptionMessage := "Description mmust be a string if exists"
  const YearMessage := "Year must be larger than 0"

  /** The attributes that have a rule; every other name passes unchecked. */
  const CheckedAttributes: set<string> := {"author", "price", "description", "year_published"}

  /** `makeValidation(attribute, value)`. An unknown attribute is only
      logged, so it raises nothing. */
  function MakeValidation(attribute: string, value: Value): (r: Outcome<()>)
    ensures r.Threw? ==> r.exception.InvalidArgumentError?
    ensures attribute !in CheckedAttributes ==> r == Returned(())
    ensures attribute == "author" ==>
      (r.Returned? <==> value.Str? && |value.s| > 0) &&
      (r.Threw? ==> r.exception.message == AuthorMessage)
    ensures attribute == "price" ==>
      (r.Returned? <==> value.Num? && value.n >= 0) &&
      (r.Threw? ==> r.exception.message == PriceMessage)
    ensures attribute == "description" ==>
      (r.Returned? <==> value.Undefined? || value.Str?) &&
      (r.Threw? ==> r.exception.message == DescriptionMessage)
    ensures attribute == "year_published" ==>
      (r.Returned? <==> value.Num? && value.n >= 0) &&
      (r.Threw? ==> r.exception.message == YearMessage)
  {
    if attribute == "author" then
      Validate(!value.Str? || |value.s| == 0, AuthorMessage)
    else if attribute == "price" then
      Validate(!value.Num? || value.n < 0, PriceMessage)
    else if attribute == "description" then
      Validate(value != Undefined && !value.Str?, DescriptionMessage)
    else if attribute == "year_published" then
      Validate(!value.Num? || value.n < 0, YearMessage)
    else
      Returned(())
  }

  /** A value that passes its column's rule can be stored in that column, and
      storing it keeps a valid row valid. */
  lemma ValidatedValueKeepsRowValid(b: Book, c: Column, v: Value)
    requires ValidRow(b)
    requires ColumnName(c) in CheckedAttributes
    requires MakeValidation(ColumnName(c), v).Returned?
    ensures Fits(c, v) && ValidRow(SetColumn(b, c, v))
  {
  }

  /** For the three required attributes the rule is exactly "storable and
      keeps the row valid": a rejected value would break some valid row,
      and an accepted one breaks none. */
  lemma {:induction false} RequiredRulesAreExact(c: Column, v: Value)
    requires c == Author || c == Price || c == YearPublished
    ensures MakeValidation(ColumnName(c), v).Returned? <==>
      forall b :: ValidRow(b) ==> Fits(c, v) && ValidRow(SetColumn(b, c, v))
  {
    var sample := Book("id", "a", 0, None, 0, 0);
    assert ValidRow(sample);
    if MakeValidation(ColumnName(c), v).Threw? {
      assert !(Fits(c, v) && ValidRow(SetColumn(sample, c, v)));
    }
  }

  /** `addBook`'s four checks, in its order: author, price, year_published,
      description. The first failing one is the one thrown. */
  function ValidateNewBook(author: Value, price: Value, yearPublished: Value, description: Value): (r: Outcome<()>)
    ensures r.Returned? <==>
      MakeValidation("author", author).Returned? && MakeValidation("price", price).Returned? &&
      MakeValidation("year_published", yearPublished).Returned? &&
      MakeValidation("description", description).Returned?
    ensures r.Threw? ==> r.exception.InvalidArgumentError?
    ensures MakeValidation("author", author).Threw? ==> r == MakeValidation("author", author)
    ensures MakeValidation("author", author).Returned? && MakeValidation("price", price).Threw? ==>
      r == MakeValidation("price", price)
    ensures MakeValidation("author", author).Returned? && MakeValidation("price", price).Returned? &&
            MakeValidation("year_published", yearPublished).Threw? ==>
      r == MakeValidation("year_published", yearPublished)
    ensures MakeValidation("author", author).Returned? && MakeValidation("price", price).Returned? &&
            MakeValidation("year_published", yearPublished).Returned? ==>
      r == MakeValidation("description", description)
  {
    var _ :- MakeValidation("author", author);
    var _ :- MakeValidation("price", price);
    var _ :- MakeValidation("year_published", yearPublished);
    var _ :- MakeValidation("description", description);
    Returned(())
  }

  /** Values that pass all four checks make a valid row whatever the id and
      timestamp. */
  lemma ValidatedBookIsValidRow(id: string, author: Value, price: Value, yearPublished: Value,
                                description: Value, now: int)
    requires ValidateNewBook(author, price, yearPublished, description).Returned?
    ensures InsertedRow([Str(id), author, price, description, yearPublished], now).Some?
    ensures ValidRow(InsertedRow([Str(id), author, price, description, yearPublished], now).value)
  {
    var values := [Str(id), author, price, description, yearPublished];
    assert forall i :: 0 <= i < 5 ==> Fits(Columns[i], values[i]);
  }
}
