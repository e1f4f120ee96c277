/** `NgccTableSearchService.filterLocal`: keeps the rows in which some listed
    column's text contains the search query, ignoring case. */
module TableSearch {
  import opened TableTypes
  import Text

  /** `query.trim().toLowerCase()`. */
  function NormalizedQuery(query: string): string {
    Text.Lower(Text.Trim(query))
  }

  /** The lower-cased text of one field, as the filter compares it. */
  function FieldText(row: Row, column: string): string {
    Text.Lower(ValueText(Field(row, column)))
  }

  /** `columns.some((col) => ...includes(q))`, column by column. */
  predicate SomeColumnMatches(row: Row, columns: seq<string>, q: string) {
    if columns == [] then false
    else Text.Contains(FieldText(row, columns[0]), q) || SomeColumnMatches(row, columns[1..], q)
  }

  /** A row matches exactly when one of the listed columns' texts contains
      the query. */
  lemma {:induction false} SomeColumnMatchesExists(row: Row, columns: seq<string>, q: string)
    ensures SomeColumnMatches(row, columns, q) <==>
      exists k :: 0 <= k < |columns| && Text.Contains(FieldText(row, columns[k]), q)
  {
    if columns != [] {
      SomeColumnMatchesExists(row, columns[1..], q);
      if SomeColumnMatches(row, columns[1..], q) {
        var k :| 0 <= k < |columns[1..]| && Text.Contains(FieldText(row, columns[1..][k]), q);
        assert columns[k + 1] == columns[1..][k];
      }
      if exists k :: 0 <= k < |columns| && Text.Contains(FieldText(row, columns[k]), q) {
        var k :| 0 <= k < |columns| && Text.Contains(FieldText(row, columns[k]), q);
        if k > 0 {
          assert columns[1..][k - 1] == columns[k];
        }
      }
    }
  }

  /** `data.filter(...)` with the predicate above. */
  function FilterRows(data: seq<Row>, columns: seq<string>, q: string): (r: seq<Row>)
    ensures |r| <= |data|
    ensures forall row ::
      multiset(r)[row] == (if SomeColumnMatches(row, columns, q) then multiset(data)[row] else 0)
  {
    if data == [] then []
    else
      assert data == [data[0]] + data[1..];
      (if SomeColumnMatches(data[0], columns, q) then [data[0]] else [])
        + FilterRows(data[1..], columns, q)
  }

  /** `filterLocal(data, columns)` with the service's current `query`. */
  function FilterLocal(data: seq<Row>, columns: seq<string>, query: string): (r: seq<Row>)
    ensures NormalizedQuery(query) == "" ==> r == data
    ensures forall row :: row in r <==>
      row in data && (NormalizedQuery(query) == ""
                      || SomeColumnMatches(row, columns, NormalizedQuery(query)))
  {
    var q := NormalizedQuery(query);
    if q == "" then data
    else
      assert forall row :: row in FilterRows(data, columns, q) <==>
        multiset(FilterRows(data, columns, q))[row] > 0;
      FilterRows(data, columns, q)
  }

  /** `NgccTableSearchService`, provided once at the root: every table
      reads and writes the same `query`, which outlives any one table. */
  class SearchService {
    var query: string

    constructor ()
      ensures query == ""
    {
      query := "";
    }
  }

  /** `sub` is `s` with some elements left out, the rest in their order. */
  predicate IsSubsequence(sub: seq<Row>, s: seq<Row>) {
    if sub == [] then true
    else if s == [] then false
    else (sub[0] == s[0] && IsSubsequence(sub[1..], s[1..])) || IsSubsequence(sub, s[1..])
  }

  lemma {:induction false} SubsequenceOfTail(sub: seq<Row>, s: seq<Row>)
    requires s != [] && IsSubsequence(sub, s[1..])
    ensures IsSubsequence(sub, s)
  {
  }

  lemma SubsequenceOfCons(sub: seq<Row>, s: seq<Row>)
    requires s != [] && IsSubsequence(sub, s[1..])
    ensures IsSubsequence([s[0]] + sub, s)
  {
    assert ([s[0]] + sub)[1..] == sub;
  }

  lemma {:induction false} FilterRowsSubsequence(data: seq<Row>, columns: seq<string>, q: string)
    ensures IsSubsequence(FilterRows(data, columns, q), data)
  {
    if data != [] {
      FilterRowsSubsequence(data[1..], columns, q);
      var rest := FilterRows(data[1..], columns, q);
      if SomeColumnMatches(data[0], columns, q) {
        assert FilterRows(data, columns, q) == [data[0]] + rest;
        SubsequenceOfCons(rest, data);
      } else {
        assert FilterRows(data, columns, q) == rest;
        SubsequenceOfTail(rest, data);
      }
    }
  }

  /** The filter keeps rows in their original order. */
  lemma FilterLocalSubsequence(data: seq<Row>, columns: seq<string>, query: string)
    ensures IsSubsequence(FilterLocal(data, columns, query), data)
  {
    var q := NormalizedQuery(query);
    if q == "" {
      SubsequenceReflexive(data);
    } else {
      FilterRowsSubsequence(data, columns, q);
    }
  }

  lemma {:induction false} SubsequenceReflexive(s: seq<Row>)
    ensures IsSubsequence(s, s)
  {
    if s != [] {
      SubsequenceReflexive(s[1..]);
    }
  }

  /** A null or missing field has the empty text, which contains no
      non-empty query: such fields never make a row match. */
  lemma NullFieldNeverMatches(row: Row, column: string, q: string)
    requires Field(row, column) == Null && q != ""
    ensures !Text.Contains(FieldText(row, column), q)
  {
    assert FieldText(row, column) == "";
  }

  /** With no columns to search, a non-empty query keeps no row. */
  lemma NoColumnsNoRows(data: seq<Row>, query: string)
    requires NormalizedQuery(query) != ""
    ensures FilterLocal(data, [], query) == []
  {
  }
}
