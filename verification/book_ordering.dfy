/** How the table answers `select ... order by <column> [desc] limit $k
    offset $m`. The row order is a strict total order: the column's value
    first, and, where two rows agree on it, their primary key. */
module BookOrdering {
  import opened JsValues
  import opened BookSchema

  // ---------------------------------------------------------------------
  // Text order
  // ---------------------------------------------------------------------

  /** Lexicographic order of strings, character by character. */
  predicate StrLess(a: string, b: string) {
    if a == [] then b != []
    else if b == [] then false
    else if a[0] != b[0] then a[0] < b[0]
    else StrLess(a[1..], b[1..])
  }

  lemma {:induction false} StrLessIrreflexive(a: string)
    ensures !StrLess(a, a)
  {
    if a != [] {
      StrLessIrreflexive(a[1..]);
    }
  }

  lemma {:induction false} StrLessTransitive(a: string, b: string, c: string)
    requires StrLess(a, b) && StrLess(b, c)
    ensures StrLess(a, c)
  {
    if a != [] && b != [] && c != [] && a[0] == b[0] && b[0] == c[0] {
      StrLessTransitive(a[1..], b[1..], c[1..]);
    }
  }

  lemma {:induction false} StrLessTotal(a: string, b: string)
    requires a != b
    ensures StrLess(a, b) || StrLess(b, a)
  {
    if a != [] && b != [] && a[0] == b[0] {
      assert a == [a[0]] + a[1..] && b == [b[0]] + b[1..];
      StrLessTotal(a[1..], b[1..]);
    }
  }

  lemma {:induction false} StrLessAsymmetric(a: string, b: string)
    requires StrLess(a, b)
    ensures !StrLess(b, a)
  {
    if StrLess(b, a) {
      StrLessTransitive(a, b, a);
      StrLessIrreflexive(a);
    }
  }

  // ---------------------------------------------------------------------
  // Column keys
  // ---------------------------------------------------------------------

  /** What a row is sorted on: a number, a text, or NULL (after every
      text in ascending order). */
  datatype SortKey = IntKey(i: int) | TextKey(t: string) | NullKey

  function KeyRank(k: SortKey): nat {
    match k
    case IntKey(_) => 0
    case TextKey(_) => 1
    case NullKey => 2
  }

  predicate KeyLess(x: SortKey, y: SortKey) {
    if KeyRank(x) != KeyRank(y) then KeyRank(x) < KeyRank(y)
    else if x.IntKey? then x.i < y.i
    else if x.TextKey? then StrLess(x.t, y.t)
    else false
  }

  function KeyOf(b: Book, c: Column): SortKey {
    match c
    case Id => TextKey(b.id)
    case Author => TextKey(b.author)
    case Price => IntKey(b.price)
    case Description => if b.description.Some? then TextKey(b.description.value) else NullKey
    case YearPublished => IntKey(b.yearPublished)
    case AddedDttm => IntKey(b.addedDttm)
  }

  lemma KeyLessIrreflexive(x: SortKey)
    ensures !KeyLess(x, x)
  {
    if x.TextKey? { StrLessIrreflexive(x.t); }
  }

  lemma KeyLessTotal(x: SortKey, y: SortKey)
    requires x != y
    ensures KeyLess(x, y) || KeyLess(y, x)
  {
    if x.TextKey? && y.TextKey? { StrLessTotal(x.t, y.t); }
  }

  lemma KeyLessTransitive(x: SortKey, y: SortKey, z: SortKey)
    requires KeyLess(x, y) && KeyLess(y, z)
    ensures KeyLess(x, z)
  {
    if x.TextKey? && y.TextKey? && z.TextKey? {
      StrLessTransitive(x.t, y.t, z.t);
    }
  }

  lemma KeyLessAsymmetric(x: SortKey, y: SortKey)
    requires KeyLess(x, y)
    ensures !KeyLess(y, x)
  {
    if KeyLess(y, x) {
      KeyLessTransitive(x, y, x);
      KeyLessIrreflexive(x);
    }
  }

  /** Row `a` comes before row `b` in `order by c` (descending when `desc`),
      ties broken by the primary key. */
  predicate Precedes(a: Book, b: Book, c: Column, desc: bool) {
    var ka, kb := KeyOf(a, c), KeyOf(b, c);
    if ka != kb then (if desc then KeyLess(kb, ka) else KeyLess(ka, kb))
    else StrLess(a.id, b.id)
  }

  lemma PrecedesAsymmetric(a: Book, b: Book, c: Column, desc: bool)
    requires Precedes(a, b, c, desc)
    ensures !Precedes(b, a, c, desc)
  {
    var ka, kb := KeyOf(a, c), KeyOf(b, c);
    if ka == kb {
      StrLessAsymmetric(a.id, b.id);
    } else if desc {
      KeyLessAsymmetric(kb, ka);
    } else {
      KeyLessAsymmetric(ka, kb);
    }
  }

  lemma PrecedesTotal(a: Book, b: Book, c: Column, desc: bool)
    requires a.id != b.id
    ensures Precedes(a, b, c, desc) || Precedes(b, a, c, desc)
  {
    var ka, kb := KeyOf(a, c), KeyOf(b, c);
    if ka == kb {
      StrLessTotal(a.id, b.id);
    } else {
      KeyLessTotal(ka, kb);
    }
  }

  lemma PrecedesTransitive(a: Book, b: Book, d: Book, c: Column, desc: bool)
    requires Precedes(a, b, c, desc) && Precedes(b, d, c, desc)
    ensures Precedes(a, d, c, desc)
  {
    var ka, kb, kd := KeyOf(a, c), KeyOf(b, c), KeyOf(d, c);
    if ka == kb && kb == kd {
      StrLessTransitive(a.id, b.id, d.id);
    } else if ka == kb || kb == kd {
    } else if ka == kd {
      // b would lie strictly before and strictly after the shared key
      if desc { KeyLessAsymmetric(kb, ka); } else { KeyLessAsymmetric(ka, kb); }
    } else if desc {
      KeyLessTransitive(kd, kb, ka);
    } else {
      KeyLessTransitive(ka, kb, kd);
    }
  }

  // ---------------------------------------------------------------------
  // The ordered table
  // ---------------------------------------------------------------------

  /** `k` names the row that comes first among all rows of `table`. */
  predicate IsFirst(table: map<string, Book>, k: string, c: Column, desc: bool)
    requires k in table
  {
    forall k' :: k' in table && k' != k ==> Precedes(table[k], table[k'], c, desc)
  }

  lemma {:induction false} FirstExists(table: map<string, Book>, c: Column, desc: bool)
    requires Keyed(table) && |table| > 0
    ensures exists k :: k in table && IsFirst(table, k, c, desc)
    decreases |table|
  {
    var k0 :| k0 in table;
    var rest := table - {k0};
    if |rest| == 0 {
      assert IsFirst(table, k0, c, desc);
    } else {
      FirstExists(rest, c, desc);
      var k1 :| k1 in rest && IsFirst(rest, k1, c, desc);
      assert forall k' :: k' in rest && k' != k1 ==> Precedes(table[k1], table[k'], c, desc);
      PrecedesTotal(table[k0], table[k1], c, desc);
      if Precedes(table[k0], table[k1], c, desc) {
        forall k' | k' in table && k' != k0
          ensures Precedes(table[k0], table[k'], c, desc)
        {
          if k' != k1 {
            assert k' in rest;
            PrecedesTransitive(table[k0], table[k1], table[k'], c, desc);
          }
        }
        assert IsFirst(table, k0, c, desc);
      } else {
        assert IsFirst(table, k1, c, desc);
      }
    }
  }

  /** At most one row comes first. */
  lemma FirstIsUnique(table: map<string, Book>, c: Column, desc: bool)
    ensures forall k1, k2 ::
      (k1 in table && k2 in table && IsFirst(table, k1, c, desc) && IsFirst(table, k2, c, desc)) ==> k1 == k2
  {
    forall k1, k2 | k1 in table && k2 in table &&
      IsFirst(table, k1, c, desc) && IsFirst(table, k2, c, desc)
      ensures k1 == k2
    {
      if k1 != k2 {
        PrecedesAsymmetric(table[k1], table[k2], c, desc);
      }
    }
  }

  /** Whether the rows are in strictly increasing `Precedes` order. */
  predicate Ordered(rows: seq<Book>, c: Column, desc: bool) {
    forall i, j :: 0 <= i < j < |rows| ==> Precedes(rows[i], rows[j], c, desc)
  }

  /** `rows` lists every row of `table` exactly once, in `order by c [desc]`
      order. */
  predicate Lists(rows: seq<Book>, table: map<string, Book>, c: Column, desc: bool) {
    && |rows| == |table|
    && (forall i :: 0 <= i < |rows| ==> rows[i].id in table && table[rows[i].id] == rows[i])
    && (forall k :: k in table ==> table[k] in rows)
    && Ordered(rows, c, desc)
  }

  /** Putting the first row in front of a listing of the others lists the
      whole table. */
  lemma ListsWithFirst(table: map<string, Book>, k: string, rest: seq<Book>, c: Column, desc: bool)
    requires Keyed(table) && k in table && IsFirst(table, k, c, desc)
    requires Lists(rest, table - {k}, c, desc)
    ensures Lists([table[k]] + rest, table, c, desc)
  {
    var others := table - {k};
    assert |others| == |table| - 1;
    forall i | 0 <= i < |rest| ensures Precedes(table[k], rest[i], c, desc) {
      assert rest[i].id in others;
    }
    OrderedCons(table[k], rest, c, desc);
    forall k' | k' in table ensures table[k'] in [table[k]] + rest {
      if k' != k {
        assert k' in others;
      }
    }
  }

  lemma OrderedCons(first: Book, rest: seq<Book>, c: Column, desc: bool)
    requires Ordered(rest, c, desc)
    requires forall i :: 0 <= i < |rest| ==> Precedes(first, rest[i], c, desc)
    ensures Ordered([first] + rest, c, desc)
  {
    var rows := [first] + rest;
    forall i, j | 0 <= i < j < |rows| ensures Precedes(rows[i], rows[j], c, desc) {
      if i > 0 {
        assert rows[i] == rest[i - 1] && rows[j] == rest[j - 1];
      } else {
        assert rows[j] == rest[j - 1];
      }
    }
  }

  /** Every row of the table exactly once, in `order by c [desc]` order. */
  function SortedRows(table: map<string, Book>, c: Column, desc: bool): (rows: seq<Book>)
    requires Keyed(table)
    ensures Lists(rows, table, c, desc)
    decreases |table|
  {
    if |table| == 0 then []
    else
      FirstExists(table, c, desc);
      FirstIsUnique(table, c, desc);
      var k :| k in table && IsFirst(table, k, c, desc);
      var rest := SortedRows(table - {k}, c, desc);
      ListsWithFirst(table, k, rest, c, desc);
      [table[k]] + rest
  }

  // ---------------------------------------------------------------------
  // LIMIT and OFFSET
  // ---------------------------------------------------------------------

  /** How many rows `offset m` skips out of `n`: `m` of them when there are
      that many, all of them otherwise, and none without the clause. */
  function Skipped(n: nat, offset: Option<nat>): (k: nat)
    ensures k <= n
    ensures offset.None? ==> k == 0
    ensures offset.Some? ==> k <= offset.value && (k == offset.value || k == n)
  {
    if offset.Some? && offset.value < n then offset.value
    else if offset.Some? then n
    else 0
  }

  /** How many rows `limit l` keeps out of `n`: `l` of them when there are
      that many, all of them otherwise, and all of them without the clause. */
  function Kept(n: nat, limit: Option<nat>): (k: nat)
    ensures k <= n
    ensures limit.Some? ==> k <= limit.value && (k == limit.value || k == n)
    ensures limit.None? ==> k == n
  {
    if limit.Some? && limit.value < n then limit.value else n
  }

  /** `offset m limit n` over already ordered rows; an absent clause does
      not restrict. */
  function Window(rows: seq<Book>, offset: Option<nat>, limit: Option<nat>): (w: seq<Book>)
    ensures limit.Some? ==> |w| <= limit.value
    ensures |w| == Kept(|rows| - Skipped(|rows|, offset), limit)
    ensures forall i :: 0 <= i < |w| ==> w[i] == rows[Skipped(|rows|, offset) + i]
  {
    var skip := Skipped(|rows|, offset);
    rows[skip..skip + Kept(|rows| - skip, limit)]
  }

  /** `Window`'s own contract as a lemma, so that callers can bring it in
      without unfolding anything else; it exists only to keep their proofs
      small. */
  lemma WindowPicks(rows: seq<Book>, offset: Option<nat>, limit: Option<nat>)
    ensures var w, skip := Window(rows, offset, limit), Skipped(|rows|, offset);
      && |w| == Kept(|rows| - skip, limit)
      && forall i :: 0 <= i < |w| ==> w[i] == rows[skip + i]
  {
  }

  /** The window as slices: from row `m` on (or from the start), the next
      `l` rows when there are that many, the rest otherwise, and nothing
      when `m` is past the end. */
  lemma WindowSlices(rows: seq<Book>, offset: Option<nat>, limit: Option<nat>)
    ensures offset.Some? && offset.value >= |rows| ==> Window(rows, offset, limit) == []
    ensures var m := if offset.Some? then offset.value else 0;
      m <= |rows| ==>
        && (limit.None? ==> Window(rows, offset, limit) == rows[m..])
        && (limit.Some? && m + limit.value <= |rows| ==> Window(rows, offset, limit) == rows[m..m + limit.value])
        && (limit.Some? && m + limit.value > |rows| ==> Window(rows, offset, limit) == rows[m..])
  {
    var w, skip := Window(rows, offset, limit), Skipped(|rows|, offset);
    var m := if offset.Some? then offset.value else 0;
    if m <= |rows| {
      assert skip == m;
      if limit.None? || m + limit.value > |rows| {
        assert w == rows[m..];
      } else {
        assert w == rows[m..m + limit.value];
      }
    }
  }

  /** A window of ordered rows is ordered. */
  lemma WindowOrdered(rows: seq<Book>, offset: Option<nat>, limit: Option<nat>, c: Column, desc: bool)
    requires Ordered(rows, c, desc)
    ensures Ordered(Window(rows, offset, limit), c, desc)
  {
    var skip := Skipped(|rows|, offset);
    assert Window(rows, offset, limit) == rows[skip..skip + Kept(|rows| - skip, limit)];
  }

  /** In a listing ordered by `c`, the column values never go down in
      ascending order and never go up in descending order. */
  lemma OrderedKeysMonotone(rows: seq<Book>, c: Column, desc: bool, i: nat, j: nat)
    requires Ordered(rows, c, desc) && i < j < |rows|
    ensures !desc ==> !KeyLess(KeyOf(rows[j], c), KeyOf(rows[i], c))
    ensures desc ==> !KeyLess(KeyOf(rows[i], c), KeyOf(rows[j], c))
  {
    var ki, kj := KeyOf(rows[i], c), KeyOf(rows[j], c);
    assert Precedes(rows[i], rows[j], c, desc);
    if ki != kj {
      if desc { KeyLessAsymmetric(kj, ki); } else { KeyLessAsymmetric(ki, kj); }
    } else {
      KeyLessIrreflexive(ki);
    }
  }
}
