/** What the book operations promise about each other: a book that was
    added can be read back, an update changes exactly the columns it names,
    and no operation breaks the data rules of the rows. */
module BookProperties {
  import opened JsValues
  import opened Outcomes
  import opened BookSchema
  import opened BookValidation
  import opened BookOrdering
  import opened BookQueries
  import opened BookTable
  import opened BookModel

  // ---------------------------------------------------------------------
  // getBooks
  // ---------------------------------------------------------------------

  /** With arguments that pass the checks and a working store, `getBooks`
      yields the window of the whole table in the requested order: the
      rows from position `offset` on, at most `limit` of them, each
      clause counting only when given. */
  lemma ListBooksPage(table: map<string, Book>, limit: Value, offset: Value, sortBy: Value, desc: Value,
                      lim: Option<nat>, off: Option<nat>)
    requires Keyed(table)
    requires lim.None? <==> limit == Undefined
    requires lim.Some? ==> ToNumber(limit) == Some(lim.value as int)
    requires off.None? <==> offset == Undefined
    requires off.Some? ==> ToNumber(offset) == Some(off.value as int)
    requires sortBy == Undefined || IsBookAttribute(sortBy)
    requires desc == Undefined || desc.Bool?
    ensures ListBooks(table, limit, offset, sortBy, desc, false).Returned?
    ensures ListBooks(table, limit, offset, sortBy, desc, false).value ==
      Rows(Window(SortedRows(table, SortColumn(sortBy), desc != Bool(false)), off, lim))
  {
    var q := GetBooksQuery(limit, offset, sortBy, desc).value;
    assert ListBooks(table, limit, offset, sortBy, desc, false) == Returned(RunListQuery(table, q));
    ColumnNamesRoundTrip();
    assert q.orderBy == SortColumn(sortBy) by {
      assert ParseColumn(ColumnName(q.orderBy)) == Some(q.orderBy);
    }
    assert AsCount(OffsetValue(q)) == off;
    assert AsCount(LimitValue(q)) == lim;
    ListQueryIsWindow(table, q);
  }

  // ---------------------------------------------------------------------
  // addBook, then getBook / getBooks
  // ---------------------------------------------------------------------

  /** The row a successful `addBook` created is the one `getBook` returns:
      its columns hold the values given, `added_dttm` is the time of the
      insert, and the row keeps the data rules. */
  lemma AddThenGet(table: map<string, Book>, id: string, author: Value, price: Value, description: Value,
                   yearPublished: Value, now: int)
    requires Keyed(table)
    requires AddBookStep(table, Str(id), author, price, description, yearPublished, now, false).result
             == Returned(RowCount(1))
    ensures var after := AddBookStep(table, Str(id), author, price, description, yearPublished, now, false).table;
      var found := FindBook(after, Str(id), false);
      && found.Found?
      && found.book.id == id
      && Cell(found.book, Author) == author
      && Cell(found.book, Price) == price
      && Cell(found.book, Description) == Stored(description)
      && Cell(found.book, YearPublished) == yearPublished
      && found.book.addedDttm == now
      && ValidRow(found.book)
  {
    var values := [Str(id), author, price, description, yearPublished];
    ValidatedBookIsValidRow(id, author, price, yearPublished, description, now);
    var row := InsertedRow(values, now).value;
    assert AddBookStep(table, Str(id), author, price, description, yearPublished, now, false).table
           == table[id := row];
    assert Cell(row, Columns[1]) == Stored(values[1]);
    assert Cell(row, Columns[2]) == Stored(values[2]);
    assert Cell(row, Columns[3]) == Stored(values[3]);
    assert Cell(row, Columns[4]) == Stored(values[4]);
  }

  /** A full listing taken after a successful `addBook` contains the new
      book. */
  lemma AddThenList(table: map<string, Book>, id: string, author: Value, price: Value, description: Value,
                    yearPublished: Value, now: int, sortBy: Value, desc: Value)
    requires Keyed(table)
    requires AddBookStep(table, Str(id), author, price, description, yearPublished, now, false).result
             == Returned(RowCount(1))
    requires ListBooks(AddBookStep(table, Str(id), author, price, description, yearPublished, now, false).table,
                       Undefined, Undefined, sortBy, desc, false).Returned?
    ensures var after := AddBookStep(table, Str(id), author, price, description, yearPublished, now, false).table;
      var listing := ListBooks(after, Undefined, Undefined, sortBy, desc, false).value;
      listing.Rows? && exists i :: 0 <= i < |listing.rows| && listing.rows[i] == after[id]
  {
    var after := AddBookStep(table, Str(id), author, price, description, yearPublished, now, false).table;
    AddThenGet(table, id, author, price, description, yearPublished, now);
    var rows := ListBooks(after, Undefined, Undefined, sortBy, desc, false).value.rows;
    assert after[id] in rows;
  }

  /** `addBook` keeps every row within the data rules. */
  lemma AddKeepsRowsValid(table: map<string, Book>, id: Value, author: Value, price: Value, description: Value,
                          yearPublished: Value, now: int, dbFails: bool)
    requires Keyed(table) && AllRowsValid(table)
    ensures AllRowsValid(AddBookStep(table, id, author, price, description, yearPublished, now, dbFails).table)
  {
    var s := AddBookStep(table, id, author, price, description, yearPublished, now, dbFails);
    if s.result == Returned(RowCount(1)) {
      AddThenGet(table, id.s, author, price, description, yearPublished, now);
    }
  }

  // ---------------------------------------------------------------------
  // updateBook
  // ---------------------------------------------------------------------

  /** A column of the row after `updateBook` with the object `props`, as an
      independent account: a column the object names takes the object's
      value, any other keeps the old one. */
  function Patched(b: Book, props: seq<Prop>, c: Column): Value {
    if ColumnName(c) in Names(props) then Stored(Get(props, ColumnName(c))) else Cell(b, c)
  }

  /** The key of the row after the update: a string `id` in the object
      renames the row. */
  function NewKey(bookId: string, props: seq<Prop>): string {
    var v := Get(props, "id");
    if v.Str? then v.s else bookId
  }

  lemma PassedValue(props: seq<Prop>, valid: seq<string>, name: string)
    requires AllPass(props, valid) && name in valid
    ensures MakeValidation(name, Get(props, name)).Returned?
  {
    var i :| 0 <= i < |valid| && valid[i] == name;
  }

  /** The statement built from the kept attributes, applied to a row, gives
      the patched row. */
  lemma PlannedRowIsPatched(b: Book, bookId: string, props: seq<Prop>, stmt: UpdateStatement)
    requires UpdatePlan(bookId, props, KeptAttributes(Names(props))) == Returned(stmt)
    requires Executable(stmt)
    ensures forall c :: Cell(Apply(b, stmt.assignments, stmt.bindVariables), c) == Patched(b, props, c)
  {
    var valid := KeptAttributes(Names(props));
    UpdatePlanNumbering(bookId, props, valid, stmt);
    forall c ensures Cell(Apply(b, stmt.assignments, stmt.bindVariables), c) == Patched(b, props, c) {
      AppliedCell(b, props, valid, stmt.assignments, stmt.bindVariables, c);
    }
  }

  /** One column of a row updated by assignments numbered as `updateBook`
      numbers them. */
  lemma AppliedCell(b: Book, props: seq<Prop>, valid: seq<string>, assignments: seq<Assignment>,
                    binds: seq<Value>, c: Column)
    requires forall a :: a in valid <==> a in Names(props) && a in BookAttributes
    requires |assignments| == |valid| && |binds| == |valid| + 1
    requires forall i :: 0 <= i < |valid| ==>
      && assignments[i] == Assignment(ParseColumn(valid[i]).value, i + 2)
      && binds[i + 1] == Get(props, valid[i])
    requires InRange(assignments, binds) && AllFit(assignments, binds) && DistinctColumns(assignments)
    ensures Cell(Apply(b, assignments, binds), c) == Patched(b, props, c)
  {
    var name := ColumnName(c);
    if name in Names(props) {
      assert name in valid;
      var i :| 0 <= i < |valid| && valid[i] == name;
      AssignedColumn(c, valid[i]);
      assert assignments[i].column == c;
      ApplyAssigns(b, assignments, binds, i);
    } else {
      assert c !in Targets(assignments) by {
        forall j | 0 <= j < |assignments| ensures Targets(assignments)[j] != c {
          AssignedColumn(Targets(assignments)[j], valid[j]);
          assert valid[j] in valid;
        }
      }
      ApplyKeepsUntargeted(b, assignments, binds, c);
    }
  }

  lemma AssignedColumn(c: Column, name: string)
    requires name in BookAttributes
    ensures ParseColumn(name).value == c <==> ColumnName(c) == name
  {
    ColumnNamesRoundTrip();
  }

  /** What a successful `updateBook` did to the table: the row `bookId`
      now holds the patched columns, under its new key if the object
      renamed it, and every other row is untouched. */
  lemma {:induction false} UpdatePatchesRow(table: map<string, Book>, bookId: string, props: seq<Prop>,
                                            dbFails: bool)
    requires Keyed(table)
    requires UpdateBookStep(table, Str(bookId), Obj(props), dbFails).result == Returned(RowCount(1))
    ensures var after := UpdateBookStep(table, Str(bookId), Obj(props), dbFails).table;
      var k := NewKey(bookId, props);
      && bookId in table && k in after
      && (forall c :: Cell(after[k], c) == Patched(table[bookId], props, c))
      && (k != bookId ==> bookId !in after && k !in table)
      && (forall k' :: k' != bookId && k' != k ==>
            (k' in after <==> k' in table) && (k' in table ==> after[k'] == table[k']))
  {
    var stmt := SuccessfulUpdate(table, bookId, props, dbFails);
    var row := UpdatedRow(table, stmt);
    UpdatedRowIsPatched(table, bookId, props, stmt);
    assert row.id == bookId || row.id !in table;
    ReplacedEntry(table, bookId, row.id, row);
  }

  /** The map facts about moving the entry under `old` to `new`. */
  lemma ReplacedEntry<V>(m: map<string, V>, oldKey: string, newKey: string, v: V)
    requires oldKey in m && (newKey == oldKey || newKey !in m)
    ensures var m' := (m - {oldKey})[newKey := v];
      && newKey in m' && m'[newKey] == v
      && (newKey != oldKey ==> oldKey !in m')
      && (forall k :: k != oldKey && k != newKey ==> (k in m' <==> k in m) && (k in m ==> m'[k] == m[k]))
  {
  }

  /** A successful `updateBook` is the run of the statement its `forEach`
      built, on a working table. */
  lemma SuccessfulUpdate(table: map<string, Book>, bookId: string, props: seq<Prop>, dbFails: bool)
    returns (stmt: UpdateStatement)
    requires Keyed(table)
    requires UpdateBookStep(table, Str(bookId), Obj(props), dbFails).result == Returned(RowCount(1))
    ensures UpdatePlan(bookId, props, KeptAttributes(Names(props))) == Returned(stmt)
    ensures !dbFails && RunUpdate(table, stmt).result == RowCount(1)
    ensures UpdateBookStep(table, Str(bookId), Obj(props), dbFails).table == RunUpdate(table, stmt).table
  {
    var valid := KeptAttributes(Names(props));
    var s := UpdateBookStep(table, Str(bookId), Obj(props), dbFails);
    assert valid != [];
    assert s == RunPlan(table, bookId, props, valid, dbFails);
    stmt := UpdatePlan(bookId, props, valid).value;
  }

  /** The row the statement updates holds the patched columns, and its key
      is the new key. */
  lemma UpdatedRowIsPatched(table: map<string, Book>, bookId: string, props: seq<Prop>, stmt: UpdateStatement)
    requires Keyed(table)
    requires UpdatePlan(bookId, props, KeptAttributes(Names(props))) == Returned(stmt)
    requires RunUpdate(table, stmt).result == RowCount(1)
    ensures Executable(stmt) && stmt.bindVariables[0] == Str(bookId) && bookId in table
    ensures forall c :: Cell(UpdatedRow(table, stmt), c) == Patched(table[bookId], props, c)
    ensures UpdatedRow(table, stmt).id == NewKey(bookId, props)
  {
    UpdatePlanNumbering(bookId, props, KeptAttributes(Names(props)), stmt);
    assert Executable(stmt) && stmt.bindVariables[0] == Str(bookId);
    var row := UpdatedRow(table, stmt);
    PlannedRowIsPatched(table[bookId], bookId, props, stmt);
    RenamedKey(table[bookId], bookId, props, row);
  }

  lemma RenamedKey(b: Book, bookId: string, props: seq<Prop>, row: Book)
    requires b.id == bookId && Cell(row, Id) == Patched(b, props, Id)
    ensures row.id == NewKey(bookId, props)
  {
    if "id" in Names(props) {
      assert Stored(Get(props, "id")) == Str(row.id);
    }
  }

  /** What the table needs beyond the checks: the kept attributes name
      distinct columns, and each value has its column's type (the checks
      leave `id` and `added_dttm` unchecked). */
  predicate PatchFits(props: seq<Prop>) {
    var kept := KeptAttributes(Names(props));
    && (forall i, j :: 0 <= i < j < |kept| ==> kept[i] != kept[j])
    && (forall a :: a in kept ==> Fits(ParseColumn(a).value, Get(props, a)))
  }

  /** The statement `updateBook` builds is accepted by the table exactly
      when the patch fits. */
  lemma ExecutableIffFits(bookId: string, props: seq<Prop>, stmt: UpdateStatement)
    requires KeptAttributes(Names(props)) != []
    requires UpdatePlan(bookId, props, KeptAttributes(Names(props))) == Returned(stmt)
    ensures Executable(stmt) <==> PatchFits(props)
  {
    var kept := KeptAttributes(Names(props));
    UpdatePlanNumbering(bookId, props, kept, stmt);
    NumberedColumnsDistinct(kept, stmt.assignments);
    NumberedValuesFit(props, kept, stmt.assignments, stmt.bindVariables);
  }

  lemma NumberedColumnsDistinct(kept: seq<string>, assignments: seq<Assignment>)
    requires forall a :: a in kept ==> a in BookAttributes
    requires |assignments| == |kept|
    requires forall i :: 0 <= i < |kept| ==> assignments[i].column == ParseColumn(kept[i]).value
    ensures DistinctColumns(assignments) <==> forall i, j :: 0 <= i < j < |kept| ==> kept[i] != kept[j]
  {
    forall i, j | 0 <= i < j < |kept|
      ensures assignments[i].column == assignments[j].column <==> kept[i] == kept[j]
    {
      assert ColumnName(ParseColumn(kept[i]).value) == kept[i];
      assert ColumnName(ParseColumn(kept[j]).value) == kept[j];
    }
  }

  lemma NumberedValuesFit(props: seq<Prop>, kept: seq<string>, assignments: seq<Assignment>, binds: seq<Value>)
    requires forall a :: a in kept ==> a in BookAttributes
    requires |assignments| == |kept| && |binds| == |kept| + 1
    requires forall i :: 0 <= i < |kept| ==>
      && assignments[i] == Assignment(ParseColumn(kept[i]).value, i + 2)
      && binds[i + 1] == Get(props, kept[i])
    ensures InRange(assignments, binds)
    ensures AllFit(assignments, binds) <==> forall a :: a in kept ==> Fits(ParseColumn(a).value, Get(props, a))
  {
    if AllFit(assignments, binds) {
      forall a | a in kept ensures Fits(ParseColumn(a).value, Get(props, a)) {
        var i :| 0 <= i < |kept| && kept[i] == a;
        assert Fits(assignments[i].column, binds[assignments[i].placeholder - 1]);
      }
    }
  }

  /** Once every kept attribute passed its check, the update touches the
      row exactly when the key exists, the patch fits and the new key does
      not belong to another row; it touches nothing, without error, exactly
      when the patch fits and the key is absent. */
  lemma UpdateOutcome(table: map<string, Book>, bookId: string, props: seq<Prop>, dbFails: bool)
    requires Keyed(table) && |bookId| > 0
    requires KeptAttributes(Names(props)) != [] && AllPass(props, KeptAttributes(Names(props)))
    ensures var r := UpdateBookStep(table, Str(bookId), Obj(props), dbFails).result;
      && (dbFails ==> r == Returned(CommandFailed))
      && (!dbFails ==> (r == Returned(RowCount(0)) <==> PatchFits(props) && bookId !in table))
      && (!dbFails ==> (r == Returned(RowCount(1)) <==>
            PatchFits(props) && bookId in table &&
            (NewKey(bookId, props) == bookId || NewKey(bookId, props) !in table)))
  {
    var kept := KeptAttributes(Names(props));
    var s := UpdateBookStep(table, Str(bookId), Obj(props), dbFails);
    assert s == RunPlan(table, bookId, props, kept, dbFails);
    UpdatePlanSucceedsIff(bookId, props, kept);
    var stmt := UpdatePlan(bookId, props, kept).value;
    UpdatePlanNumbering(bookId, props, kept, stmt);
    ExecutableIffFits(bookId, props, stmt);
    if !dbFails {
      assert s.result == Returned(RunUpdate(table, stmt).result);
      if Executable(stmt) && bookId in table {
        var row := UpdatedRow(table, stmt);
        PlannedRowIsPatched(table[bookId], bookId, props, stmt);
        RenamedKey(table[bookId], bookId, props, row);
      }
    }
  }

  /** An update whose object has no `id` keeps the book under its id. */
  lemma UpdateWithoutIdKeepsKey(table: map<string, Book>, bookId: string, props: seq<Prop>, dbFails: bool)
    requires Keyed(table)
    requires "id" !in Names(props)
    requires UpdateBookStep(table, Str(bookId), Obj(props), dbFails).result == Returned(RowCount(1))
    ensures var after := UpdateBookStep(table, Str(bookId), Obj(props), dbFails).table;
      && bookId in table && after.Keys == table.Keys
      && forall c :: Cell(after[bookId], c) == Patched(table[bookId], props, c)
  {
    var after := UpdateBookStep(table, Str(bookId), Obj(props), dbFails).table;
    UpdatePatchesRow(table, bookId, props, dbFails);
    assert Get(props, "id") == Undefined;
    assert NewKey(bookId, props) == bookId;
    assert bookId in after && bookId in table;
    assert after.Keys == table.Keys;
  }

  /** A row whose columns are the patched ones, all of whose named
      attributes passed their checks, keeps the data rules. */
  lemma PatchedRowValid(b: Book, props: seq<Prop>, row: Book)
    requires ValidRow(b) && AllPass(props, KeptAttributes(Names(props)))
    requires forall c :: Cell(row, c) == Patched(b, props, c)
    ensures ValidRow(row)
  {
    PatchedColumnValid(b, props, row, Author);
    PatchedColumnValid(b, props, row, Price);
    PatchedColumnValid(b, props, row, YearPublished);
  }

  /** One of the three required columns, after a patch that passed its
      checks, still holds a value the data rules allow. */
  lemma PatchedColumnValid(b: Book, props: seq<Prop>, row: Book, c: Column)
    requires c == Author || c == Price || c == YearPublished
    requires ValidRow(b) && AllPass(props, KeptAttributes(Names(props)))
    requires Cell(row, c) == Patched(b, props, c)
    ensures c == Author ==> row.author != ""
    ensures c == Price ==> row.price >= 0
    ensures c == YearPublished ==> row.yearPublished >= 0
  {
    var name := ColumnName(c);
    if name in Names(props) {
      var v := Get(props, name);
      PassedValue(props, KeptAttributes(Names(props)), name);
      assert MakeValidation(name, v).Returned?;
      assert Cell(row, c) == Stored(v);
    } else {
      assert Cell(row, c) == Cell(b, c);
    }
  }

  /** `updateBook` keeps every row within the data rules: each column it
      writes has passed that column's check. */
  lemma UpdateKeepsRowsValid(table: map<string, Book>, bookId: Value, newAttributes: Value, dbFails: bool)
    requires Keyed(table) && AllRowsValid(table)
    ensures AllRowsValid(UpdateBookStep(table, bookId, newAttributes, dbFails).table)
  {
    var s := UpdateBookStep(table, bookId, newAttributes, dbFails);
    if s.result == Returned(RowCount(1)) {
      assert bookId.Str? && newAttributes.Obj?;
      var props := newAttributes.props;
      var valid := KeptAttributes(Names(props));
      assert valid != [];
      assert AllPass(props, valid);
      UpdatePatchesRow(table, bookId.s, props, dbFails);
      var k := NewKey(bookId.s, props);
      PatchedRowValid(table[bookId.s], props, s.table[k]);
      forall k' | k' in s.table ensures ValidRow(s.table[k']) {
        if k' != k {
          assert k' != bookId.s;
          assert s.table[k'] == table[k'];
        }
      }
    }
  }

  // ---------------------------------------------------------------------
  // deleteBook
  // ---------------------------------------------------------------------

  /** After a delete that ran, `getBook` finds nothing under that id. */
  lemma DeleteThenGet(table: map<string, Book>, bookId: string)
    requires Keyed(table)
    ensures FindBook(DeleteBookStep(table, Str(bookId), false).table, Str(bookId), false) == NotFound
  {
  }

  /** `deleteBook` keeps every row within the data rules. */
  lemma DeleteKeepsRowsValid(table: map<string, Book>, bookId: Value, dbFails: bool)
    requires Keyed(table) && AllRowsValid(table)
    ensures AllRowsValid(DeleteBookStep(table, bookId, dbFails).table)
  {
  }
}
