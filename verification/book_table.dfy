/** The `book` table as the statements of the model see it: a map from
    primary key to row, and the four statements the model issues evaluated
    over it, with the table's own ways of refusing a statement. */
module BookTable {
  import opened JsValues
  import opened BookSchema
  import opened BookOrdering
  import opened BookQueries

  /** What a `select` over many rows yields: the rows, or a statement the
      table refused. */
  datatype Listing = ListingFailed | Rows(rows: seq<Book>)

  /** What a `select ... where id = $1` yields. */
  datatype Lookup = LookupFailed | NotFound | Found(book: Book)

  /** What an `insert`, `update` or `delete` yields: the number of rows it
      touched, or a statement the table refused. */
  datatype CommandResult = CommandFailed | RowCount(count: nat)

  /** A statement's result together with the table after it. */
  datatype Effect = Effect(result: CommandResult, table: map<string, Book>)

  // ---------------------------------------------------------------------
  // select ... order by ... limit ... offset ...
  // ---------------------------------------------------------------------

  /** `limit` and `offset` reject a negative argument. */
  predicate Negative(v: Option<int>) {
    v.Some? && v.value < 0
  }

  function AsCount(v: Option<int>): (r: Option<nat>)
    requires !Negative(v)
    ensures r.Some? <==> v.Some?
    ensures r.Some? ==> r.value == v.value
  {
    if v.Some? then Some(v.value) else None
  }

  /** The rows of the listing statement: the whole table in the statement's
      order, without the first `offset` rows, and at most `limit` of them. */
  function RunListQuery(table: map<string, Book>, q: ListQuery): (r: Listing)
    requires Keyed(table) && WellNumbered(q)
    ensures r.ListingFailed? <==> Negative(LimitValue(q)) || Negative(OffsetValue(q))
    ensures r.Rows? ==> Ordered(r.rows, q.orderBy, q.descending)
    ensures r.Rows? ==> forall i :: 0 <= i < |r.rows| ==>
      r.rows[i].id in table && table[r.rows[i].id] == r.rows[i]
    ensures r.Rows? && LimitValue(q).Some? ==> |r.rows| <= LimitValue(q).value
    ensures r.Rows? && LimitValue(q).None? && OffsetValue(q).None? ==>
      |r.rows| == |table| && forall k :: k in table ==> table[k] in r.rows
    ensures r.Rows? && OffsetValue(q).Some? && OffsetValue(q).value >= |table| ==> r.rows == []
  {
    if Negative(LimitValue(q)) || Negative(OffsetValue(q)) then ListingFailed
    else
      var all := SortedRows(table, q.orderBy, q.descending);
      var offset := AsCount(OffsetValue(q));
      var limit := AsCount(LimitValue(q));
      WindowOrdered(all, offset, limit, q.orderBy, q.descending);
      Rows(Window(all, offset, limit))
  }

  /** Which rows the listing yields: the table in the statement's order,
      from position `offset` on (or from the start), as many as `limit`
      allows (or all the rest). */
  lemma ListQueryWindow(table: map<string, Book>, q: ListQuery)
    requires Keyed(table) && WellNumbered(q)
    requires !Negative(LimitValue(q)) && !Negative(OffsetValue(q))
    ensures RunListQuery(table, q).Rows?
    ensures var all := SortedRows(table, q.orderBy, q.descending);
      var skip := Skipped(|all|, AsCount(OffsetValue(q)));
      && |RunListQuery(table, q).rows| == Kept(|all| - skip, AsCount(LimitValue(q)))
      && forall i :: 0 <= i < |RunListQuery(table, q).rows| ==> RunListQuery(table, q).rows[i] == all[skip + i]
  {
    ListQueryIsWindow(table, q);
    WindowPicks(SortedRows(table, q.orderBy, q.descending), AsCount(OffsetValue(q)), AsCount(LimitValue(q)));
  }

  /** The unfolding of `RunListQuery`, kept apart from the reasoning about
      the window in `ListQueryWindow` only to keep each proof small. */
  lemma ListQueryIsWindow(table: map<string, Book>, q: ListQuery)
    requires Keyed(table) && WellNumbered(q)
    requires !Negative(LimitValue(q)) && !Negative(OffsetValue(q))
    ensures RunListQuery(table, q) ==
      Rows(Window(SortedRows(table, q.orderBy, q.descending), AsCount(OffsetValue(q)), AsCount(LimitValue(q))))
  {
  }

  // ---------------------------------------------------------------------
  // select ... where id = $1
  // ---------------------------------------------------------------------

  function SelectById(table: map<string, Book>, id: string): (r: Lookup)
    requires Keyed(table)
    ensures !r.LookupFailed?
    ensures r.NotFound? <==> id !in table
    ensures r.Found? ==> r.book.id == id && id in table && table[id] == r.book
  {
    if id in table then Found(table[id]) else NotFound
  }

  // ---------------------------------------------------------------------
  // insert into book (id, author, price, description, year_published)
  // ---------------------------------------------------------------------

  /** The insert with its five bind values; `added_dttm` takes the table's
      default, the current time `now`. A value of the wrong type or an id
      already present makes the table refuse the statement. */
  function InsertRow(table: map<string, Book>, values: seq<Value>, now: int): (e: Effect)
    requires Keyed(table) && |values| == 5
    ensures Keyed(e.table)
    ensures e.result == CommandFailed || e.result == RowCount(1)
    ensures e.result.CommandFailed? <==>
      InsertedRow(values, now).None? || InsertedRow(values, now).value.id in table
    ensures e.result.CommandFailed? ==> e.table == table
    ensures e.result.RowCount? ==>
      var row := InsertedRow(values, now).value;
      row.id !in table && e.table == table[row.id := row]
  {
    var row := InsertedRow(values, now);
    if row.None? || row.value.id in table then Effect(CommandFailed, table)
    else Effect(RowCount(1), table[row.value.id := row.value])
  }

  // ---------------------------------------------------------------------
  // update book set <column> = $k, ... where id = $1
  // ---------------------------------------------------------------------

  /** The columns the statement assigns, in order. */
  function Targets(assignments: seq<Assignment>): (cs: seq<Column>)
    ensures |cs| == |assignments|
    ensures forall i :: 0 <= i < |cs| ==> cs[i] == assignments[i].column
  {
    if assignments == [] then [] else [assignments[0].column] + Targets(assignments[1..])
  }

  predicate DistinctColumns(assignments: seq<Assignment>) {
    forall i, j :: 0 <= i < j < |assignments| ==> assignments[i].column != assignments[j].column
  }

  predicate InRange(assignments: seq<Assignment>, binds: seq<Value>) {
    forall i :: 0 <= i < |assignments| ==> 1 <= assignments[i].placeholder <= |binds|
  }

  predicate AllFit(assignments: seq<Assignment>, binds: seq<Value>)
    requires InRange(assignments, binds)
  {
    forall i :: 0 <= i < |assignments| ==>
      Fits(assignments[i].column, binds[assignments[i].placeholder - 1])
  }

  /** Whether the table accepts the statement at all: it assigns at least
      one column and no column twice, every placeholder has a bind value,
      the key `$1` is text, and every assigned value fits its column. */
  predicate Executable(stmt: UpdateStatement) {
    && |stmt.assignments| > 0
    && |stmt.bindVariables| > 0
    && stmt.bindVariables[0].Str?
    && DistinctColumns(stmt.assignments)
    && InRange(stmt.assignments, stmt.bindVariables)
    && AllFit(stmt.assignments, stmt.bindVariables)
  }

  /** The assignments applied to one row, left to right. */
  function Apply(b: Book, assignments: seq<Assignment>, binds: seq<Value>): Book
    requires InRange(assignments, binds) && AllFit(assignments, binds)
    decreases |assignments|
  {
    if assignments == [] then b
    else
      var a := assignments[0];
      var rest := assignments[1..];
      assert forall i :: 0 <= i < |rest| ==> rest[i] == assignments[i + 1];
      Apply(SetColumn(b, a.column, binds[a.placeholder - 1]), rest, binds)
  }

  /** A column no assignment targets keeps its value. */
  lemma {:induction false} ApplyKeepsUntargeted(b: Book, assignments: seq<Assignment>, binds: seq<Value>, c: Column)
    requires InRange(assignments, binds) && AllFit(assignments, binds)
    requires c !in Targets(assignments)
    ensures Cell(Apply(b, assignments, binds), c) == Cell(b, c)
    decreases |assignments|
  {
    if assignments != [] {
      var a := assignments[0];
      var rest := assignments[1..];
      assert forall i :: 0 <= i < |rest| ==> rest[i] == assignments[i + 1];
      assert Targets(assignments) == [a.column] + Targets(rest);
      assert c != a.column && c !in Targets(rest);
      ApplyKeepsUntargeted(SetColumn(b, a.column, binds[a.placeholder - 1]), rest, binds, c);
    }
  }

  /** When no column is assigned twice, every assigned column ends up
      holding the stored form of its bind value. */
  lemma {:induction false} ApplyAssigns(b: Book, assignments: seq<Assignment>, binds: seq<Value>, i: nat)
    requires InRange(assignments, binds) && AllFit(assignments, binds) && DistinctColumns(assignments)
    requires i < |assignments|
    ensures Cell(Apply(b, assignments, binds), assignments[i].column) == Stored(binds[assignments[i].placeholder - 1])
    decreases |assignments|
  {
    var a := assignments[0];
    var rest := assignments[1..];
    assert forall j :: 0 <= j < |rest| ==> rest[j] == assignments[j + 1];
    var first := SetColumn(b, a.column, binds[a.placeholder - 1]);
    DistinctSplit(assignments);
    if i == 0 {
      ApplyKeepsUntargeted(first, rest, binds, a.column);
    } else {
      ApplyAssigns(first, rest, binds, i - 1);
    }
  }

  /** Distinct columns: the first is not assigned again, and the rest are
      distinct too. */
  lemma DistinctSplit(assignments: seq<Assignment>)
    requires DistinctColumns(assignments) && assignments != []
    ensures assignments[0].column !in Targets(assignments[1..])
    ensures DistinctColumns(assignments[1..])
  {
    var rest := assignments[1..];
    forall j | 0 <= j < |rest| ensures Targets(rest)[j] != assignments[0].column {
      assert rest[j] == assignments[j + 1];
    }
  }

  /** The row the statement's `where id = $1` matches, once updated. */
  function UpdatedRow(table: map<string, Book>, stmt: UpdateStatement): Book
    requires Executable(stmt) && stmt.bindVariables[0].s in table
  {
    Apply(table[stmt.bindVariables[0].s], stmt.assignments, stmt.bindVariables)
  }

  /** The update. It touches no row when the key is absent, and is refused
      when it would give the row the key of another row. */
  function RunUpdate(table: map<string, Book>, stmt: UpdateStatement): (e: Effect)
    requires Keyed(table)
    ensures Keyed(e.table)
    ensures e.result == CommandFailed || e.result == RowCount(0) || e.result == RowCount(1)
    ensures e.result != RowCount(1) ==> e.table == table
    ensures e.result == RowCount(0) <==> Executable(stmt) && stmt.bindVariables[0].s !in table
    ensures e.result == RowCount(1) ==>
      && Executable(stmt)
      && var id := stmt.bindVariables[0].s;
      && id in table
      && var row := UpdatedRow(table, stmt);
      && (row.id == id || row.id !in table)
      && e.table == (table - {id})[row.id := row]
    ensures Executable(stmt) && stmt.bindVariables[0].s in table &&
            (UpdatedRow(table, stmt).id == stmt.bindVariables[0].s || UpdatedRow(table, stmt).id !in table) ==>
      e.result == RowCount(1)
  {
    if !Executable(stmt) then Effect(CommandFailed, table)
    else
      var id := stmt.bindVariables[0].s;
      if id !in table then Effect(RowCount(0), table)
      else
        var row := UpdatedRow(table, stmt);
        if row.id != id && row.id in table then Effect(CommandFailed, table)
        else Effect(RowCount(1), (table - {id})[row.id := row])
  }

  // ---------------------------------------------------------------------
  // delete from book where id = $1
  // ---------------------------------------------------------------------

  function DeleteById(table: map<string, Book>, id: string): (e: Effect)
    requires Keyed(table)
    ensures Keyed(e.table)
    ensures e.result == RowCount(if id in table then 1 else 0)
    ensures id !in e.table
    ensures forall k :: k != id ==> (k in e.table <==> k in table)
    ensures forall k :: k in e.table ==> e.table[k] == table[k]
  {
    Effect(RowCount(if id in table then 1 else 0), table - {id})
  }
}
