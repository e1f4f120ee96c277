/** The data table's documented examples, on the rows and columns of its
    test suite. */
module TableExamples {
  import opened Wrappers
  import opened TableTypes
  import opened Table
  import TableSort
  import TableSearch
  import Text

  /** A `{ id, name, age }` record. */
  function User(id: int, name: string, age: int): Row {
    map["id" := Num(id), "name" := Str(name), "age" := Num(age)]
  }

  const TestColumns := [Column("id", "ID", true, NoWidth), Column("name", "Name", true, NoWidth), Column("age", "Age", true, NoWidth)]
  const TestRows := [User(2, "Alice", 25), User(1, "Bob", 30), User(3, "Charlie", 20)]
  const TestConfig := TableConfig(true, Some(2), StaticSearch)

  /** Sorting by id on a two-row page: ascending shows ids 1, 2 and
      descending shows ids 3, 2. */
  lemma SortExamples()
    ensures var asc := ProcessedRows(TestRows, TestColumns, "", Some(SortState("id", Asc)), TestConfig, 0);
      |asc| == 2 && Field(asc[0], "id") == Num(1) && Field(asc[1], "id") == Num(2)
    ensures var desc := ProcessedRows(TestRows, TestColumns, "", Some(SortState("id", Desc)), TestConfig, 0);
      |desc| == 2 && Field(desc[0], "id") == Num(3) && Field(desc[1], "id") == Num(2)
  {
    AscendingById();
    FirstPageOfSorted(TestRows, TestColumns, SortState("id", Asc), TestRows[1], TestRows[0], TestRows[2]);
    DescendingById();
    FirstPageOfSorted(TestRows, TestColumns, SortState("id", Desc), TestRows[2], TestRows[0], TestRows[1]);
    UserId(2, "Alice", 25);
    UserId(1, "Bob", 30);
    UserId(3, "Charlie", 20);
  }

  lemma UserId(id: int, name: string, age: int)
    ensures Field(User(id, name, age), "id") == Num(id)
  {
  }

  /** The first two-row page of rows sorted into `[a, b, c]`. */
  lemma FirstPageOfSorted(rows: seq<Row>, columns: seq<Column>, sort: SortState, a: Row, b: Row, c: Row)
    requires TableSort.SortRows(rows, sort) == [a, b, c]
    ensures ProcessedRows(rows, columns, "", Some(sort), TestConfig, 0) == [a, b]
  {
    assert TableSearch.NormalizedQuery("") == "";
    assert FilteredSorted(rows, columns, "", Some(sort)) == [a, b, c];
    assert PageStart(0, 2) == 0;
    assert [a, b, c][0..2] == [a, b];
  }

  lemma AscendingById()
    ensures TableSort.SortRows(TestRows, SortState("id", Asc)) == [TestRows[1], TestRows[0], TestRows[2]]
  {
  }

  lemma DescendingById()
    ensures TableSort.SortRows(TestRows, SortState("id", Desc)) == [TestRows[2], TestRows[0], TestRows[1]]
  {
  }

  /** Three rows at two per page make two pages, and the second page holds
      only the third row. */
  lemma PageExamples()
    ensures var abc := [map["id" := Num(1), "name" := Str("A")], map["id" := Num(2), "name" := Str("B")], map["id" := Num(3), "name" := Str("C")]];
      var cfg := TableConfig(true, Some(2), StaticSearch);
      && TotalPages(cfg, |abc|) == 2
      && ProcessedRows(abc, [], "", None, cfg, 1) == [abc[2]]
  {
    var abc := [map["id" := Num(1), "name" := Str("A")], map["id" := Num(2), "name" := Str("B")], map["id" := Num(3), "name" := Str("C")]];
    var cfg := TableConfig(true, Some(2), StaticSearch);
    assert TableSearch.NormalizedQuery("") == "";
    assert FilteredSorted(abc, [], "", None) == abc;
    assert PageStart(1, 2) == 2;
    assert Paginate(abc, 2, 1) == abc[2..3];
  }

  lemma QueryAlice()
    ensures TableSearch.NormalizedQuery("Alice") == "alice"
  {
    assert Text.TrimStart("Alice") == "Alice";
    assert Text.TrimEnd("Alice") == "Alice";
    var l := Text.Lower("Alice");
    assert l[0] == 'a' && l[1] == 'l' && l[2] == 'i' && l[3] == 'c' && l[4] == 'e';
    assert l == "alice";
  }

  lemma NotInCharlie()
    ensures !Text.Contains("charlie", "alice")
  {
    assert "charlie"[1..] == "harlie" && "harlie"[1..] == "arlie" && "arlie"[1..] == "rlie";
    assert "charlie"[..5] == "charl" && "harlie"[..5] == "harli" && "arlie"[..5] == "arlie";
    assert !Text.Contains("rlie", "alice");
  }

  /** The text of a number never contains "alice". */
  lemma NumberNeverMatches(row: Row, key: string)
    requires Field(row, key).Num?
    ensures !Text.Contains(TableSearch.FieldText(row, key), "alice")
  {
    var t := TableSearch.FieldText(row, key);
    if Text.Contains(t, "alice") {
      Text.ContainsFirstChar(t, "alice");
    }
  }

  lemma AliceMatches()
    ensures TableSearch.SomeColumnMatches(TestRows[0], ColumnKeys(TestColumns), "alice")
  {
    assert ColumnKeys(TestColumns)[1] == "name";
    assert TableSearch.FieldText(TestRows[0], "name") == "alice";
    assert Text.StartsWith("alice", "alice");
    TableSearch.SomeColumnMatchesExists(TestRows[0], ColumnKeys(TestColumns), "alice");
  }

  /** A test row with numeric id and age misses "alice" when its name does. */
  lemma RowMisses(row: Row, name: string)
    requires Field(row, "id").Num? && Field(row, "age").Num? && Field(row, "name") == Str(name)
    requires !Text.Contains(Text.Lower(name), "alice")
    ensures !TableSearch.SomeColumnMatches(row, ColumnKeys(TestColumns), "alice")
  {
    var keys := ColumnKeys(TestColumns);
    assert keys == ["id", "name", "age"];
    NumberNeverMatches(row, "id");
    NumberNeverMatches(row, "age");
    assert TableSearch.FieldText(row, "name") == Text.Lower(name);
    TableSearch.SomeColumnMatchesExists(row, keys, "alice");
  }

  lemma BobMisses()
    ensures !TableSearch.SomeColumnMatches(TestRows[1], ColumnKeys(TestColumns), "alice")
  {
    var l := Text.Lower("Bob");
    assert l[0] == 'b' && l[1] == 'o' && l[2] == 'b';
    assert !Text.Contains(l, "alice") by {
      if Text.Contains(l, "alice") {
        Text.ContainsFirstChar(l, "alice");
      }
    }
    RowMisses(TestRows[1], "Bob");
  }

  lemma CharlieMisses()
    ensures !TableSearch.SomeColumnMatches(TestRows[2], ColumnKeys(TestColumns), "alice")
  {
    var l := Text.Lower("Charlie");
    assert l == "charlie" by {
      assert l[0] == 'c' && l[1] == 'h' && l[2] == 'a' && l[3] == 'r';
      assert l[4] == 'l' && l[5] == 'i' && l[6] == 'e';
    }
    NotInCharlie();
    RowMisses(TestRows[2], "Charlie");
  }

  lemma FilterTail()
    ensures TableSearch.FilterRows(TestRows[1..], ColumnKeys(TestColumns), "alice") == []
  {
    BobMisses();
    CharlieMisses();
    var tail := TestRows[1..];
    assert tail[0] == TestRows[1] && tail[1..] == [TestRows[2]];
    assert TableSearch.FilterRows([TestRows[2]], ColumnKeys(TestColumns), "alice") == [];
  }

  lemma FilterAlice()
    ensures TableSearch.FilterLocal(TestRows, ColumnKeys(TestColumns), "Alice") == [TestRows[0]]
  {
    QueryAlice();
    AliceMatches();
    FilterTail();
  }

  lemma AliceName()
    ensures Field(TestRows[0], "name") == Str("Alice")
  {
  }

  lemma SearchFiltered()
    ensures FilteredSorted(TestRows, TestColumns, "Alice", None) == [TestRows[0]]
  {
    QueryAlice();
    FilterAlice();
  }

  /** The query "Alice" leaves only Alice's row. */
  lemma SearchExample()
    ensures var shown := ProcessedRows(TestRows, TestColumns, "Alice", None, TestConfig, 0);
      |shown| == 1 && Field(shown[0], "name") == Str("Alice")
  {
    SearchFiltered();
    AliceName();
    var shown := PageOf([TestRows[0]], TestConfig, 0);
    assert |shown| == 1 && shown[0] == TestRows[0];
  }

  /** One search service behind two tables: a static search typed into the
      first table already filters a table created after it. */
  method SharedQuery() returns (first: DataTable, second: DataTable)
    ensures first.search == second.search
    ensures second.search.query == "Alice"
    ensures second.rows == TestRows && second.columns == TestColumns && second.config == TestConfig
    ensures second.sortState == None && second.currentPage == 0
  {
    var service := new TableSearch.SearchService();
    first := new DataTable(TestColumns, TestRows, TestConfig, service);
    var emitted := first.HandleSearchInput("Alice");
    second := new DataTable(TestColumns, TestRows, TestConfig, service);
  }

  /** What the second table of `SharedQuery` shows: only Alice's row. */
  lemma SharedQueryShows(t: DataTable)
    requires t.search.query == "Alice"
    requires t.rows == TestRows && t.columns == TestColumns && t.config == TestConfig
    requires t.sortState == None && t.currentPage == 0
    ensures t.Valid()
    ensures |t.Processed()| == 1 && Field(t.Processed()[0], "name") == Str("Alice")
  {
    SearchExample();
  }
}
