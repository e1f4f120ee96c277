/** The sort stage of the table's row pipeline: the comparator handed to
    `Array.prototype.sort` and a stable insertion sort by it. */
module TableSort {
  import opened Wrappers
  import opened TableTypes
  import Text

  /** `Number(v)` for a defined value; None stands for NaN. */
  function ToNumber(v: Value): (r: Option<int>)
    requires !v.Null?
    ensures v.Num? ==> r == Some(v.n)
  {
    match v
    case Num(n) => Some(n)
    case Str(s) => Text.ParseNumber(s)
  }

  /** The comparison of two defined values: numeric when both convert to
      numbers, otherwise `String(a).localeCompare(String(b))`. */
  function DefinedCompare(a: Value, b: Value): int
    requires !a.Null? && !b.Null?
  {
    if ToNumber(a).Some? && ToNumber(b).Some? then ToNumber(a).value - ToNumber(b).value
    else Text.LocaleCompare(ValueText(a), ValueText(b))
  }

  /** The comparator of `processedRows` on the sort key's values. Null and
      undefined come first whatever the direction; only the comparison of
      two defined values is negated for descending order. */
  function Compare(a: Value, b: Value, dir: SortDir): (r: int)
    ensures a.Null? && b.Null? ==> r == 0
    ensures a.Null? && !b.Null? ==> r < 0
    ensures !a.Null? && b.Null? ==> r > 0
  {
    if a.Null? then (if b.Null? then 0 else -1)
    else if b.Null? then 1
    else if dir == Asc then DefinedCompare(a, b)
    else -DefinedCompare(a, b)
  }

  /** For two defined values descending is the exact negation of ascending;
      when either is null the direction makes no difference. */
  lemma DescendingNegatesAscending(a: Value, b: Value)
    ensures !a.Null? && !b.Null? ==> Compare(a, b, Desc) == -Compare(a, b, Asc)
    ensures a.Null? || b.Null? ==> Compare(a, b, Desc) == Compare(a, b, Asc)
  {
  }

  /** Swapping the arguments negates the comparator. */
  lemma CompareAntisymmetric(a: Value, b: Value, dir: SortDir)
    ensures Compare(b, a, dir) == -Compare(a, b, dir)
  {
    if !a.Null? && !b.Null? {
      Text.LocaleCompareAntisymmetric(ValueText(a), ValueText(b));
    }
  }

  function CompareRows(x: Row, y: Row, s: SortState): int {
    Compare(Field(x, s.key), Field(y, s.key), s.dir)
  }

  /** Inserts `x` before the first row it does not compare greater than. */
  function Insert(x: Row, sorted: seq<Row>, s: SortState): (r: seq<Row>)
    ensures |r| == |sorted| + 1
    ensures r[0] == x || (sorted != [] && r[0] == sorted[0])
  {
    if sorted == [] then [x]
    else if CompareRows(x, sorted[0], s) <= 0 then [x] + sorted
    else [sorted[0]] + Insert(x, sorted[1..], s)
  }

  /** `filtered.sort(comparator)`, as a stable insertion sort: each row
      goes before the first row it does not compare greater than. */
  function SortRows(rows: seq<Row>, s: SortState): (r: seq<Row>)
    ensures |r| == |rows|
  {
    if rows == [] then [] else Insert(rows[0], SortRows(rows[1..], s), s)
  }

  lemma {:induction false} InsertPermutation(x: Row, sorted: seq<Row>, s: SortState)
    ensures multiset(Insert(x, sorted, s)) == multiset(sorted) + multiset{x}
  {
    if sorted != [] && CompareRows(x, sorted[0], s) > 0 {
      InsertPermutation(x, sorted[1..], s);
      assert sorted == [sorted[0]] + sorted[1..];
    }
  }

  /** Sorting only reorders the rows. */
  lemma {:induction false} SortRowsPermutation(rows: seq<Row>, s: SortState)
    ensures multiset(SortRows(rows, s)) == multiset(rows)
  {
    if rows != [] {
      SortRowsPermutation(rows[1..], s);
      InsertPermutation(rows[0], SortRows(rows[1..], s), s);
      assert rows == [rows[0]] + rows[1..];
    }
  }

  /** Every row compares at most equal to the row after it. */
  predicate AdjacentOrdered(rows: seq<Row>, s: SortState) {
    forall i :: 0 <= i < |rows| - 1 ==> CompareRows(rows[i], rows[i + 1], s) <= 0
  }

  /** Every row compares at most equal to every later row. */
  predicate Ordered(rows: seq<Row>, s: SortState) {
    forall i, j :: 0 <= i < j < |rows| ==> CompareRows(rows[i], rows[j], s) <= 0
  }

  lemma {:induction false} InsertAdjacentOrdered(x: Row, sorted: seq<Row>, s: SortState)
    requires AdjacentOrdered(sorted, s)
    ensures AdjacentOrdered(Insert(x, sorted, s), s)
  {
    if sorted != [] && CompareRows(x, sorted[0], s) > 0 {
      var tail := sorted[1..];
      InsertAdjacentOrdered(x, tail, s);
      var r := Insert(x, sorted, s);
      var rest := Insert(x, tail, s);
      assert r == [sorted[0]] + rest;
      CompareAntisymmetric(Field(x, s.key), Field(sorted[0], s.key), s.dir);
      assert CompareRows(r[0], r[1], s) <= 0;
      forall i | 1 <= i < |r| - 1
        ensures CompareRows(r[i], r[i + 1], s) <= 0
      {
        assert r[i] == rest[i - 1] && r[i + 1] == rest[i];
      }
    }
  }

  /** The sorted rows are in comparator order, pair by neighbouring pair,
      whatever the values in the key column. */
  lemma {:induction false} SortRowsAdjacentOrdered(rows: seq<Row>, s: SortState)
    ensures AdjacentOrdered(SortRows(rows, s), s)
  {
    if rows != [] {
      SortRowsAdjacentOrdered(rows[1..], s);
      InsertAdjacentOrdered(rows[0], SortRows(rows[1..], s), s);
    }
  }

  /** In rows ordered by the comparator, every row whose key is null or
      undefined comes before every row whose key is defined. */
  lemma {:induction false} NullsFirst(rows: seq<Row>, s: SortState, i: int, j: int)
    requires AdjacentOrdered(rows, s)
    requires 0 <= i < j < |rows| && Field(rows[j], s.key).Null?
    ensures Field(rows[i], s.key).Null?
    decreases j - i
  {
    assert CompareRows(rows[j - 1], rows[j], s) <= 0;
    if i < j - 1 {
      NullsFirst(rows, s, i, j - 1);
    }
  }

  predicate NumericOrNull(v: Value) {
    v.Null? || ToNumber(v).Some?
  }

  predicate TextOrNull(v: Value) {
    v.Null? || ToNumber(v).None?
  }

  /** The key column holds only numbers (and numeric strings) or only
      non-numeric strings, apart from nulls. On such columns the comparator
      is a total preorder; on mixed columns it need not be transitive. */
  predicate HomogeneousKey(rows: seq<Row>, key: string) {
    (forall r :: r in rows ==> NumericOrNull(Field(r, key)))
    || (forall r :: r in rows ==> TextOrNull(Field(r, key)))
  }

  lemma CompareTransitive(a: Value, b: Value, c: Value, dir: SortDir)
    requires (NumericOrNull(a) && NumericOrNull(b) && NumericOrNull(c))
          || (TextOrNull(a) && TextOrNull(b) && TextOrNull(c))
    requires Compare(a, b, dir) <= 0 && Compare(b, c, dir) <= 0
    ensures Compare(a, c, dir) <= 0
  {
    if !a.Null? && !b.Null? && !c.Null? && !(NumericOrNull(a) && NumericOrNull(b) && NumericOrNull(c)) {
      var ta, tb, tc := ValueText(a), ValueText(b), ValueText(c);
      if dir == Asc {
        Text.LocaleCompareTransitive(ta, tb, tc);
      } else {
        Text.LocaleCompareAntisymmetric(ta, tb);
        Text.LocaleCompareAntisymmetric(tb, tc);
        Text.LocaleCompareAntisymmetric(ta, tc);
        Text.LocaleCompareTransitive(tc, tb, ta);
      }
    }
  }

  lemma {:induction false} OrderedPair(rows: seq<Row>, s: SortState, i: int, j: int)
    requires AdjacentOrdered(rows, s) && HomogeneousKey(rows, s.key)
    requires 0 <= i < j < |rows|
    ensures CompareRows(rows[i], rows[j], s) <= 0
    decreases j - i
  {
    if i < j - 1 {
      OrderedPair(rows, s, i, j - 1);
      assert rows[i] in rows && rows[j - 1] in rows && rows[j] in rows;
      CompareTransitive(Field(rows[i], s.key), Field(rows[j - 1], s.key), Field(rows[j], s.key), s.dir);
    }
  }

  /** On a homogeneous key column the sorted rows are fully ordered. */
  lemma SortRowsOrdered(rows: seq<Row>, s: SortState)
    requires HomogeneousKey(rows, s.key)
    ensures Ordered(SortRows(rows, s), s)
  {
    var r := SortRows(rows, s);
    SortRowsPermutation(rows, s);
    SortRowsAdjacentOrdered(rows, s);
    assert forall x :: x in r ==> x in rows by {
      forall x | x in r ensures x in rows {
        assert x in multiset(r);
      }
    }
    forall i, j | 0 <= i < j < |r|
      ensures CompareRows(r[i], r[j], s) <= 0
    {
      OrderedPair(r, s, i, j);
    }
  }

  /** Ties form one class: two values that each compare equal to a third
      compare equal to each other. Equal numbers tie, equal texts tie, and
      a number never ties with a text that does not read as one. */
  lemma CompareTiesTransitive(a: Value, b: Value, c: Value, dir: SortDir)
    requires Compare(a, c, dir) == 0 && Compare(b, c, dir) == 0
    ensures Compare(a, b, dir) == 0
  {
    if !a.Null? && !b.Null? && !c.Null? {
      Text.LocaleCompareZero(ValueText(a), ValueText(c));
      Text.LocaleCompareZero(ValueText(b), ValueText(c));
      Text.LocaleCompareZero(ValueText(a), ValueText(b));
    }
  }

  /** The rows that tie with `x` under the sort, in their order. */
  function Ties(rows: seq<Row>, x: Row, s: SortState): (r: seq<Row>)
    ensures |r| <= |rows|
  {
    if rows == [] then []
    else (if CompareRows(rows[0], x, s) == 0 then [rows[0]] else []) + Ties(rows[1..], x, s)
  }

  lemma TiesCons(y: Row, rows: seq<Row>, x: Row, s: SortState)
    ensures Ties([y] + rows, x, s) == (if CompareRows(y, x, s) == 0 then [y] else []) + Ties(rows, x, s)
  {
    assert ([y] + rows)[1..] == rows;
  }

  /** A row that compares below `y` never ties with a row `y` ties with. */
  lemma PassedRowNotTied(y: Row, h: Row, x: Row, s: SortState)
    requires CompareRows(y, h, s) > 0
    ensures CompareRows(y, x, s) != 0 || CompareRows(h, x, s) != 0
  {
    if CompareRows(y, x, s) == 0 && CompareRows(h, x, s) == 0 {
      CompareTiesTransitive(Field(y, s.key), Field(h, s.key), Field(x, s.key), s.dir);
    }
  }

  /** Inserting `y` keeps the tie classes as if `y` were put in front:
      every row `y` passes compares below `y`, so none of them ties with a
      row `y` ties with. */
  lemma {:induction false} InsertTies(y: Row, sorted: seq<Row>, x: Row, s: SortState)
    ensures Ties(Insert(y, sorted, s), x, s) == Ties([y] + sorted, x, s)
  {
    if sorted != [] && CompareRows(y, sorted[0], s) > 0 {
      InsertTies(y, sorted[1..], x, s);
      PassedRowNotTied(y, sorted[0], x, s);
      TiesAfterPass(y, sorted, x, s);
      TiesInFront(y, sorted, x, s);
      SwapFront(if CompareRows(sorted[0], x, s) == 0 then [sorted[0]] else [],
                if CompareRows(y, x, s) == 0 then [y] else [], Ties(sorted[1..], x, s));
    }
  }

  lemma SwapFront(a: seq<Row>, b: seq<Row>, c: seq<Row>)
    requires a == [] || b == []
    ensures a + (b + c) == b + (a + c)
  {
  }

  /** The tie class of `y` inserted after the first row, given the class
      of `y` put in front of the rest. */
  lemma TiesAfterPass(y: Row, sorted: seq<Row>, x: Row, s: SortState)
    requires sorted != [] && CompareRows(y, sorted[0], s) > 0
    requires Ties(Insert(y, sorted[1..], s), x, s) == Ties([y] + sorted[1..], x, s)
    ensures Ties(Insert(y, sorted, s), x, s)
         == (if CompareRows(sorted[0], x, s) == 0 then [sorted[0]] else [])
          + ((if CompareRows(y, x, s) == 0 then [y] else []) + Ties(sorted[1..], x, s))
  {
    InsertPasses(y, sorted, s);
    TiesCons(sorted[0], Insert(y, sorted[1..], s), x, s);
    TiesCons(y, sorted[1..], x, s);
  }

  lemma TiesInFront(y: Row, sorted: seq<Row>, x: Row, s: SortState)
    requires sorted != []
    ensures Ties([y] + sorted, x, s)
         == (if CompareRows(y, x, s) == 0 then [y] else [])
          + ((if CompareRows(sorted[0], x, s) == 0 then [sorted[0]] else []) + Ties(sorted[1..], x, s))
  {
    TiesCons(y, sorted, x, s);
    TiesCons(sorted[0], sorted[1..], x, s);
    assert sorted == [sorted[0]] + sorted[1..];
  }

  /** A row that compares greater than the first row goes after it. */
  lemma InsertPasses(y: Row, sorted: seq<Row>, s: SortState)
    requires sorted != [] && CompareRows(y, sorted[0], s) > 0
    ensures Insert(y, sorted, s) == [sorted[0]] + Insert(y, sorted[1..], s)
  {
  }

  /** The sort is stable: for every row `x`, the rows that tie with `x`
      leave the sort in the order they entered it. */
  lemma {:induction false} SortRowsStable(rows: seq<Row>, s: SortState, x: Row)
    ensures Ties(SortRows(rows, s), x, s) == Ties(rows, x, s)
  {
    if rows != [] {
      SortRowsStable(rows[1..], s, x);
      InsertTies(rows[0], SortRows(rows[1..], s), x, s);
      TiesCons(rows[0], SortRows(rows[1..], s), x, s);
      TiesCons(rows[0], rows[1..], x, s);
      assert rows == [rows[0]] + rows[1..];
    }
  }

  /** The rows whose key is null or undefined, in their order. */
  function NullKeyRows(rows: seq<Row>, key: string): (r: seq<Row>)
    ensures forall y :: y in r ==> y in rows && Field(y, key).Null?
  {
    if rows == [] then []
    else (if Field(rows[0], key).Null? then [rows[0]] else []) + NullKeyRows(rows[1..], key)
  }

  /** Rows without a key keep their input order in both directions. */
  lemma {:induction false} SortRowsNullsKeepOrder(rows: seq<Row>, s: SortState)
    ensures NullKeyRows(SortRows(rows, s), s.key) == NullKeyRows(rows, s.key)
  {
    var x: Row := map[];
    TiesOfNullKey(SortRows(rows, s), x, s);
    TiesOfNullKey(rows, x, s);
    SortRowsStable(rows, s, x);
  }

  lemma {:induction false} TiesOfNullKey(rows: seq<Row>, x: Row, s: SortState)
    requires Field(x, s.key).Null?
    ensures Ties(rows, x, s) == NullKeyRows(rows, s.key)
  {
    if rows != [] {
      TiesOfNullKey(rows[1..], x, s);
    }
  }
}
