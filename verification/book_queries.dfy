/** The two statements `getBooks` and `updateBook` assemble, as structured
    data: which column and direction, which placeholder `$k` stands where,
    and the bind list the placeholders index (1-based). */
module BookQueries {
  import opened JsValues
  import opened Outcomes
  import opened BookSchema
  import opened BookValidation

  const LimitMessage := "Limit must be a number if defined"
  const OffsetMessage := "Offset must be a number if defined"
  const SortByMessage := "sortBy must be a book attribute"
  const DescMessage := "desc must be a boolean if defined"
  const AttributesObjectMessage := "New attibutes must be provided as an object"
  const NoValidAttributeMessage := "At least one valid attribute to update must be provided"

  // ---------------------------------------------------------------------
  // select ... order by <column> [desc] [limit $k] [offset $m]
  // ---------------------------------------------------------------------

  /** `limit` and `offset` hold the number of their placeholder, if the
      clause is present. */
  datatype ListQuery = ListQuery(
    orderBy: Column,
    descending: bool,
    limit: Option<nat>,
    offset: Option<nat>,
    bindVariables: seq<int>)

  /** `$1, $2, ..., $n`: a helper for `WellNumbered`, whose contract only
      spells out the sequence for the verifier. */
  function Positions(n: nat): (ps: seq<nat>)
    ensures |ps| == n && forall i :: 0 <= i < n ==> ps[i] == i + 1
  {
    seq(n, i => i + 1)
  }

  /** The placeholders in the order they appear in the statement text. */
  function Placeholders(q: ListQuery): seq<nat> {
    (if q.limit.Some? then [q.limit.value] else []) +
    (if q.offset.Some? then [q.offset.value] else [])
  }

  /** The k-th placeholder written is `$k`, and every bind variable is used. */
  predicate WellNumbered(q: ListQuery) {
    Placeholders(q) == Positions(|q.bindVariables|)
  }

  /** The number `limit $k` binds, if the clause is present. */
  function LimitValue(q: ListQuery): (v: Option<int>)
    requires WellNumbered(q)
    ensures v.Some? <==> q.limit.Some?
  {
    if q.limit.Some? then
      assert Placeholders(q)[0] == q.limit.value;
      Some(q.bindVariables[q.limit.value - 1])
    else None
  }

  /** The number `offset $m` binds, if the clause is present. */
  function OffsetValue(q: ListQuery): (v: Option<int>)
    requires WellNumbered(q)
    ensures v.Some? <==> q.offset.Some?
  {
    if q.offset.Some? then
      assert Placeholders(q)[|Placeholders(q)| - 1] == q.offset.value;
      Some(q.bindVariables[q.offset.value - 1])
    else None
  }

  /** `isNaN(+v)` for a value that is defined. */
  predicate NotANumber(v: Value) {
    v != Undefined && ToNumber(v).None?
  }

  /** `bookAttributesArray.includes(v)`. */
  predicate IsBookAttribute(v: Value) {
    v.Str? && v.s in BookAttributes
  }

  /** The four argument checks of `getBooks`, then the statement it builds. */
  function GetBooksQuery(limit: Value, offset: Value, sortBy: Value, desc: Value): (r: Outcome<ListQuery>)
    ensures r.Threw? ==> r.exception.InvalidArgumentError?
    ensures NotANumber(limit) ==> r == Threw(InvalidArgumentError(LimitMessage))
    ensures !NotANumber(limit) && NotANumber(offset) ==> r == Threw(InvalidArgumentError(OffsetMessage))
    ensures !NotANumber(limit) && !NotANumber(offset) && sortBy != Undefined && !IsBookAttribute(sortBy) ==>
      r == Threw(InvalidArgumentError(SortByMessage))
    ensures (!NotANumber(limit) && !NotANumber(offset) && (sortBy == Undefined || IsBookAttribute(sortBy)) &&
             desc != Undefined && !desc.Bool?) ==> r == Threw(InvalidArgumentError(DescMessage))
    ensures (!NotANumber(limit) && !NotANumber(offset) && (sortBy == Undefined || IsBookAttribute(sortBy)) &&
             (desc == Undefined || desc.Bool?)) ==> r.Returned?
    ensures r.Returned? ==>
      && ColumnName(r.value.orderBy) == (if sortBy == Undefined then "added_dttm" else sortBy.s)
      && (r.value.descending <==> desc != Bool(false))
      && WellNumbered(r.value)
      && (r.value.limit.Some? <==> limit != Undefined)
      && (r.value.offset.Some? <==> offset != Undefined)
      && (limit != Undefined ==> LimitValue(r.value) == ToNumber(limit))
      && (offset != Undefined ==> OffsetValue(r.value) == ToNumber(offset))
  {
    var _ :- Validate(NotANumber(limit), LimitMessage);
    var _ :- Validate(NotANumber(offset), OffsetMessage);
    var _ :- Validate(sortBy != Undefined && !IsBookAttribute(sortBy), SortByMessage);
    var _ :- Validate(desc != Undefined && !desc.Bool?, DescMessage);
    var orderBy := if sortBy == Undefined then AddedDttm else ParseColumn(sortBy.s).value;
    var descending := desc != Bool(false);
    var binds0: seq<int> := [];
    var (limitSlot, binds1) :=
      if limit != Undefined then (Some(|binds0| + 1), binds0 + [ToNumber(limit).value]) else (None, binds0);
    var (offsetSlot, binds2) :=
      if offset != Undefined then (Some(|binds1| + 1), binds1 + [ToNumber(offset).value]) else (None, binds1);
    var q := ListQuery(orderBy, descending, limitSlot, offsetSlot, binds2);
    assert WellNumbered(q);
    Returned(q)
  }

  // ---------------------------------------------------------------------
  // update book set <attr> = $2, ... where id = $1
  // ---------------------------------------------------------------------

  datatype Assignment = Assignment(column: Column, placeholder: nat)

  /** `bindVariables[0]` is the book id that `where id = $1` uses. */
  datatype UpdateStatement = UpdateStatement(assignments: seq<Assignment>, bindVariables: seq<Value>)

  /** `Object.keys(newAttributes).filter(e => bookAttributesArray.includes(e))`. */
  function KeptAttributes(names: seq<string>): (kept: seq<string>)
    ensures |kept| <= |names|
    ensures forall a :: a in kept <==> a in names && a in BookAttributes
  {
    if names == [] then []
    else (if names[0] in BookAttributes then [names[0]] else []) + KeptAttributes(names[1..])
  }

  /** Keys that are not book attributes are dropped without a trace. */
  lemma {:induction false} KeptAttributesIgnoresOthers(names: seq<string>, extra: seq<string>)
    requires forall a :: a in extra ==> a !in BookAttributes
    ensures KeptAttributes(names + extra) == KeptAttributes(names)
  {
    if names == [] {
      assert names + extra == extra;
      KeptAllOthers(extra);
    } else {
      assert (names + extra)[1..] == names[1..] + extra;
      KeptAttributesIgnoresOthers(names[1..], extra);
    }
  }

  /** The filter works key by key: the kept keys keep their order and their
      multiplicity. */
  lemma {:induction false} KeptAttributesAppend(a: seq<string>, b: seq<string>)
    ensures KeptAttributes(a + b) == KeptAttributes(a) + KeptAttributes(b)
  {
    if a != [] {
      assert (a + b)[1..] == a[1..] + b;
      KeptAttributesAppend(a[1..], b);
    } else {
      assert a + b == b;
    }
  }

  lemma KeptAttributesSingle(name: string)
    ensures KeptAttributes([name]) == if name in BookAttributes then [name] else []
  {
    assert [name][1..] == [];
  }

  lemma {:induction false} KeptAllOthers(extra: seq<string>)
    requires forall a :: a in extra ==> a !in BookAttributes
    ensures KeptAttributes(extra) == []
  {
    if extra != [] {
      KeptAllOthers(extra[1..]);
    }
  }

  /** What the `forEach` over the kept attributes produces: each attribute is
      validated in turn and, if it passes, `attr = $(i+2)` is appended with
      its value pushed after the id. The first failing check is thrown. */
  function UpdatePlan(bookId: string, props: seq<Prop>, valid: seq<string>): (r: Outcome<UpdateStatement>)
    requires forall a :: a in valid ==> a in BookAttributes
    ensures r.Threw? ==> r.exception.InvalidArgumentError?
    ensures r.Returned? ==>
      |r.value.assignments| == |valid| && |r.value.bindVariables| == |valid| + 1
    decreases |valid|
  {
    if valid == [] then Returned(UpdateStatement([], [Str(bookId)]))
    else
      var n := |valid| - 1;
      var stmt :- UpdatePlan(bookId, props, valid[..n]);
      var attribute := valid[n];
      var _ :- MakeValidation(attribute, Get(props, attribute));
      Returned(WithAssignment(stmt, attribute, n, Get(props, attribute)))
  }

  /** Every named attribute of the object passes its check. */
  predicate AllPass(props: seq<Prop>, names: seq<string>) {
    forall i :: 0 <= i < |names| ==> MakeValidation(names[i], Get(props, names[i])).Returned?
  }

  /** The update succeeds exactly when every kept attribute passes its check. */
  lemma {:induction false} UpdatePlanSucceedsIff(bookId: string, props: seq<Prop>, valid: seq<string>)
    requires forall a :: a in valid ==> a in BookAttributes
    ensures UpdatePlan(bookId, props, valid).Returned? <==> AllPass(props, valid)
  {
    if valid != [] {
      var n := |valid| - 1;
      var prefix := valid[..n];
      UpdatePlanSucceedsIff(bookId, props, prefix);
      var last := MakeValidation(valid[n], Get(props, valid[n]));
      assert UpdatePlan(bookId, props, valid).Returned? <==>
        UpdatePlan(bookId, props, prefix).Returned? && last.Returned?;
      AllPassSnoc(props, valid);
    }
  }

  lemma AllPassSnoc(props: seq<Prop>, names: seq<string>)
    requires |names| > 0
    ensures AllPass(props, names) <==>
      AllPass(props, names[..|names| - 1]) &&
      MakeValidation(names[|names| - 1], Get(props, names[|names| - 1])).Returned?
  {
    var n := |names| - 1;
    assert forall i :: 0 <= i < n ==> names[..n][i] == names[i];
  }

  /** The placeholder numbering: the id is `$1`, the i-th kept attribute
      (0-based) is set from `$(i+2)`, and each placeholder indexes the bind
      list at its own 1-based position. */
  lemma {:induction false} UpdatePlanNumbering(bookId: string, props: seq<Prop>, valid: seq<string>,
                                               stmt: UpdateStatement)
    requires forall a :: a in valid ==> a in BookAttributes
    requires UpdatePlan(bookId, props, valid) == Returned(stmt)
    ensures |stmt.assignments| == |valid| && |stmt.bindVariables| == |valid| + 1
    ensures stmt.bindVariables[0] == Str(bookId)
    ensures forall i :: 0 <= i < |valid| ==>
      && stmt.assignments[i] == Assignment(ParseColumn(valid[i]).value, i + 2)
      && stmt.bindVariables[i + 1] == Get(props, valid[i])
  {
    if valid != [] {
      var n := |valid| - 1;
      var prefix := valid[..n];
      assert UpdatePlan(bookId, props, prefix).Returned?;
      var prev := UpdatePlan(bookId, props, prefix).value;
      UpdatePlanNumbering(bookId, props, prefix, prev);
      assert stmt == WithAssignment(prev, valid[n], n, Get(props, valid[n]));
      forall i | 0 <= i < n
        ensures stmt.assignments[i] == Assignment(ParseColumn(valid[i]).value, i + 2)
        ensures stmt.bindVariables[i + 1] == Get(props, valid[i])
      {
        assert prefix[i] == valid[i];
        assert stmt.assignments[i] == prev.assignments[i];
        assert stmt.bindVariables[i + 1] == prev.bindVariables[i + 1];
      }
    }
  }

  /** The statement after one more attribute has been appended. */
  function WithAssignment(stmt: UpdateStatement, attribute: string, n: nat, value: Value): UpdateStatement
    requires attribute in BookAttributes
  {
    UpdateStatement(
      stmt.assignments + [Assignment(ParseColumn(attribute).value, n + 2)],
      stmt.bindVariables + [value])
  }

  /** A plan that fails on a prefix of the attributes fails the same way on
      the whole list: nothing after the failing attribute is looked at. */
  lemma {:induction false} UpdatePlanStopsAtFailure(bookId: string, props: seq<Prop>, valid: seq<string>, k: nat)
    requires forall a :: a in valid ==> a in BookAttributes
    requires k <= |valid| && UpdatePlan(bookId, props, valid[..k]).Threw?
    ensures UpdatePlan(bookId, props, valid) == UpdatePlan(bookId, props, valid[..k])
    decreases |valid| - k
  {
    if k < |valid| {
      var n := |valid| - 1;
      assert valid[..n][..k] == valid[..k];
      UpdatePlanStopsAtFailure(bookId, props, valid[..n], k);
      assert UpdatePlan(bookId, props, valid[..n]).Threw?;
    } else {
      assert valid[..k] == valid;
    }
  }

  /** The thrown error is that of the first attribute whose check fails. */
  lemma {:induction false} UpdatePlanFirstFailure(bookId: string, props: seq<Prop>, valid: seq<string>, i: nat)
    requires forall a :: a in valid ==> a in BookAttributes
    requires i < |valid| && MakeValidation(valid[i], Get(props, valid[i])).Threw?
    requires forall j :: 0 <= j < i ==> MakeValidation(valid[j], Get(props, valid[j])).Returned?
    ensures UpdatePlan(bookId, props, valid) == Threw(MakeValidation(valid[i], Get(props, valid[i])).exception)
  {
    var prefix := valid[..i + 1];
    assert prefix[..i] == valid[..i];
    UpdatePlanSucceedsIff(bookId, props, valid[..i]);
    assert UpdatePlan(bookId, props, valid[..i]).Returned?;
    UpdatePlanStopsAtFailure(bookId, props, valid, i + 1);
  }

  /** The `forEach` loop of `updateBook`. */
  method BuildUpdate(bookId: string, props: seq<Prop>, valid: seq<string>) returns (r: Outcome<UpdateStatement>)
    requires forall a :: a in valid ==> a in BookAttributes
    ensures r == UpdatePlan(bookId, props, valid)
  {
    var assignments: seq<Assignment> := [];
    var bindVariables: seq<Value> := [Str(bookId)];
    for i := 0 to |valid|
      invariant UpdatePlan(bookId, props, valid[..i]) == Returned(UpdateStatement(assignments, bindVariables))
    {
      var attribute := valid[i];
      var value := Get(props, attribute);
      var check := MakeValidation(attribute, value);
      assert valid[..i + 1][..i] == valid[..i];
      if check.Threw? {
        UpdatePlanStopsAtFailure(bookId, props, valid, i + 1);
        return Threw(check.exception);
      }
      assignments := assignments + [Assignment(ParseColumn(attribute).value, i + 2)];
      bindVariables := bindVariables + [value];
    }
    assert valid[..|valid|] == valid;
    r := Returned(UpdateStatement(assignments, bindVariables));
  }
}
