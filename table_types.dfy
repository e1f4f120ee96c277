/** The records the table works on: rows, column descriptors, the sort
    directive, the table configuration and the selection set. */
module TableTypes {
  import opened Wrappers
  import Text

  /** A field value: JavaScript null or undefined, a number (integers only)
      or a string. */
  datatype Value = Null | Num(n: int) | Str(s: string)

  /** A row is an opaque record: its fields by name. */
  type Row = map<string, Value>

  /** `row[key]`: a field the record does not have reads as undefined. */
  function Field(row: Row, key: string): (v: Value)
    ensures key in row ==> v == row[key]
    ensures key !in row ==> v == Null
  {
    if key in row then row[key] else Null
  }

  /** `String(v ?? '')`: the text of a field, empty for null and undefined. */
  function ValueText(v: Value): (s: string)
    ensures v.Null? ==> s == ""
    ensures v.Str? ==> s == v.s
    ensures v.Num? ==> Text.ParseNumber(s) == Some(v.n)
  {
    match v
    case Null => ""
    case Num(n) => Text.IntToStringRoundTrip(n); Text.IntToString(n)
    case Str(s) => s
  }

  /** A column width: absent, a number of pixels or a CSS length string. */
  datatype Width = NoWidth | PxWidth(px: int) | CssWidth(css: string)

  datatype Column = Column(key: string, header: string, sortable: bool, width: Width)

  /** `columns.map((c) => c.key)`. */
  function ColumnKeys(columns: seq<Column>): (keys: seq<string>)
    ensures |keys| == |columns|
    ensures forall i :: 0 <= i < |columns| ==> keys[i] == columns[i].key
  {
    seq(|columns|, i requires 0 <= i < |columns| => columns[i].key)
  }

  datatype SortDir = Asc | Desc

  /** The active sort directive `{ key, dir }`; no sort is `None`. */
  datatype SortState = SortState(key: string, dir: SortDir)

  datatype SearchMode = StaticSearch | DynamicSearch

  /** `NgccTableConfig`: `pageSize` may be left undefined. */
  datatype TableConfig = TableConfig(pagination: bool, pageSize: Option<int>, searchMode: SearchMode)

  /** The configuration the table starts with. */
  const DefaultConfig := TableConfig(true, Some(10), StaticSearch)

  /** `cfg.pageSize ?? 10`. */
  function PageSizeOf(cfg: TableConfig): (size: int)
    ensures cfg.pageSize.None? ==> size == 10
    ensures cfg.pageSize.Some? ==> size == cfg.pageSize.value
  {
    cfg.pageSize.GetOr(10)
  }

  /** A selection set after `has(i) ? delete(i) : add(i)` on a copy. */
  function Toggled(sel: set<int>, i: int): (r: set<int>)
    ensures i in r <==> i !in sel
    ensures forall j :: j != i ==> (j in r <==> j in sel)
  {
    if i in sel then sel - {i} else sel + {i}
  }

  /** Toggling the same index twice restores the selection. */
  lemma ToggledTwice(sel: set<int>, i: int)
    ensures Toggled(Toggled(sel, i), i) == sel
  {
  }
}
