/** JavaScript values as the service's code sees them: what arrives in a
    request body or query string, and what the model functions receive. */
module JsValues {

  datatype Option<+T> = None | Some(value: T)

  /** A JavaScript value. Numbers are integers here; an object keeps its
      own properties in insertion order, which is the order `Object.keys`
      reports them in. */
  datatype Value =
    | Undefined
    | Null
    | Bool(b: bool)
    | Num(n: int)
    | Str(s: string)
    | Obj(props: seq<Prop>)

  datatype Prop = Prop(name: string, value: Value)

  /** `typeof v === 'object'`: true of objects and, famously, of `null`. */
  predicate TypeOfIsObject(v: Value): (b: bool)
    ensures v.Null? ==> b
    ensures v.Undefined? || v.Bool? || v.Num? || v.Str? ==> !b
  {
    v.Obj? || v.Null?
  }

  /** `Object.keys(o)`: the property names, in order. */
  function Names(props: seq<Prop>): (names: seq<string>)
    ensures |names| == |props|
    ensures forall i :: 0 <= i < |props| ==> names[i] == props[i].name
  {
    if props == [] then [] else [props[0].name] + Names(props[1..])
  }

  /** `o[name]`: the value of the property, or `undefined` when absent. */
  function Get(props: seq<Prop>, name: string): (v: Value)
    ensures name !in Names(props) ==> v == Undefined
    ensures name in Names(props) ==>
      exists i :: 0 <= i < |props| && props[i].name == name && v == props[i].value
  {
    if props == [] then Undefined
    else if props[0].name == name then props[0].value
    else Get(props[1..], name)
  }

  /** `delete o[name]`: the object without that property, other properties
      keeping their order. */
  function Delete(props: seq<Prop>, name: string): (r: seq<Prop>)
    ensures name !in Names(r)
    ensures forall p :: p in r <==> p in props && p.name != name
    ensures |r| <= |props|
  {
    if props == [] then []
    else if props[0].name == name then Delete(props[1..], name)
    else [props[0]] + Delete(props[1..], name)
  }

  /** `delete` works property by property: it drops exactly the properties
      with that name and keeps the others in their order. */
  lemma {:induction false} DeleteAppend(a: seq<Prop>, b: seq<Prop>, name: string)
    ensures Delete(a + b, name) == Delete(a, name) + Delete(b, name)
  {
    if a != [] {
      assert (a + b)[1..] == a[1..] + b;
      DeleteAppend(a[1..], b, name);
    } else {
      assert a + b == b;
    }
  }

  lemma DeleteSingle(p: Prop, name: string)
    ensures Delete([p], name) == if p.name == name then [] else [p]
  {
    assert [p][1..] == [];
  }

  /** Deleting one property leaves every other property readable as before. */
  lemma {:induction false} DeleteKeepsOthers(props: seq<Prop>, name: string, other: string)
    requires other != name
    ensures Get(Delete(props, name), other) == Get(props, other)
  {
    if props != [] {
      DeleteKeepsOthers(props[1..], name, other);
    }
  }

  /** Deleting a property adds no name. */
  lemma NamesAfterDelete(props: seq<Prop>, name: string, other: string)
    ensures other in Names(Delete(props, name)) ==> other in Names(props)
  {
    var r := Delete(props, name);
    if other in Names(r) {
      var i :| 0 <= i < |r| && Names(r)[i] == other;
      assert r[i] in props;
      var j :| 0 <= j < |props| && props[j] == r[i];
      assert Names(props)[j] == other;
    }
  }

  // ---------------------------------------------------------------------
  // Numeric coercion `+v` and `isNaN(+v)`
  // ---------------------------------------------------------------------

  predicate IsDigit(c: char) {
    '0' <= c <= '9'
  }

  predicate AllDigits(s: string) {
    forall i :: 0 <= i < |s| ==> IsDigit(s[i])
  }

  /** The value of a string of decimal digits. */
  function DigitsValue(s: string): nat
    requires AllDigits(s)
  {
    if s == [] then 0
    else DigitsValue(s[..|s| - 1]) * 10 + (s[|s| - 1] as int - '0' as int)
  }

  /** `+s` for a string: the empty string is 0, an optional sign followed by
      decimal digits is that integer, anything else is NaN (None). */
  function StringToNumber(s: string): (r: Option<int>)
    ensures r.Some? && r.value < 0 ==> s != "" && s[0] == '-'
    ensures r.Some? && s != "" ==> forall i :: 0 < i < |s| ==> IsDigit(s[i])
  {
    if s == "" then Some(0)
    else if (s[0] == '-' || s[0] == '+') && |s| > 1 && AllDigits(s[1..]) then
      var m: int := DigitsValue(s[1..]);
      Some(if s[0] == '-' then -m else m)
    else if AllDigits(s) then Some(DigitsValue(s))
    else None
  }

  /** `+v`; None stands for NaN, so `isNaN(+v)` is `ToNumber(v).None?`. */
  function ToNumber(v: Value): (r: Option<int>)
    ensures r.None? ==> v.Undefined? || v.Obj? || v.Str?
    ensures v.Num? ==> r == Some(v.n)
    ensures v.Null? || v.Bool? ==> r.Some? && 0 <= r.value <= 1
  {
    match v
    case Undefined => None
    case Null => Some(0)
    case Bool(b) => Some(if b then 1 else 0)
    case Num(n) => Some(n)
    case Str(s) => StringToNumber(s)
    case Obj(_) => None
  }

  /** The decimal text of a natural number, as it appears in a query string. */
  function DecimalString(n: nat): (s: string)
    ensures |s| > 0 && AllDigits(s)
  {
    var d := ['0' + (n % 10) as char];
    if n < 10 then d else DecimalString(n / 10) + d
  }

  /** Reading back the decimal text of `n` gives `n`. */
  lemma {:induction false} DigitsOfDecimal(n: nat)
    ensures DigitsValue(DecimalString(n)) == n
  {
    var s := DecimalString(n);
    if n >= 10 {
      DigitsOfDecimal(n / 10);
      assert s[..|s| - 1] == DecimalString(n / 10);
    }
  }

  /** `+"<n>"` is `n`: a number written in a query string converts back to
      that number. */
  /** A sign in front of decimal text is read as the sign of the number. */
  lemma SignedDecimal(n: nat)
    ensures StringToNumber("-" + DecimalString(n)) == Some(-(n as int))
    ensures StringToNumber("+" + DecimalString(n)) == Some(n)
  {
    DigitsOfDecimal(n);
    assert ("-" + DecimalString(n))[1..] == DecimalString(n);
    assert ("+" + DecimalString(n))[1..] == DecimalString(n);
  }

  lemma DecimalRoundTrip(n: nat)
    ensures ToNumber(Str(DecimalString(n))) == Some(n)
  {
    DigitsOfDecimal(n);
    var s := DecimalString(n);
    assert s[0] != '-' && s[0] != '+' by { assert IsDigit(s[0]); }
  }
}
