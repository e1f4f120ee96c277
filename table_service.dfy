/** `NgccTableService`: the store shared by a table and its toolbar, holding
    the columns, the rows and a set of selected row indices. */
module TableService {
  import opened TableTypes

  class TableStore {
    var columns: seq<Column>
    var rows: seq<Row>
    var selectedRowIndexes: set<int>

    /** The store starts empty. */
    constructor ()
      ensures columns == [] && rows == [] && selectedRowIndexes == {}
    {
      columns := [];
      rows := [];
      selectedRowIndexes := {};
    }

    /** `setColumns(cols)`: replaces the columns only. */
    method SetColumns(cols: seq<Column>)
      modifies this`columns
      ensures columns == cols
    {
      columns := cols;
    }

    /** `setRows(rows)`: replaces the rows and clears the selection, since
        indices into the old rows mean nothing for the new ones. */
    method SetRows(newRows: seq<Row>)
      modifies this`rows, this`selectedRowIndexes
      ensures rows == newRows && selectedRowIndexes == {}
      ensures columns == old(columns)
    {
      rows := newRows;
      selectedRowIndexes := {};
    }

    /** `toggleSelect(index)`: flips the membership of `index` and of no
        other index. */
    method ToggleSelect(index: int)
      modifies this`selectedRowIndexes
      ensures selectedRowIndexes == Toggled(old(selectedRowIndexes), index)
      ensures index in selectedRowIndexes <==> index !in old(selectedRowIndexes)
      ensures forall j :: j != index ==> (j in selectedRowIndexes <==> j in old(selectedRowIndexes))
    {
      var next := selectedRowIndexes;
      if index in next {
        next := next - {index};
      } else {
        next := next + {index};
      }
      selectedRowIndexes := next;
    }

    /** `clearSelection()`. */
    method ClearSelection()
      modifies this`selectedRowIndexes
      ensures selectedRowIndexes == {}
      ensures rows == old(rows) && columns == old(columns)
    {
      selectedRowIndexes := {};
    }
  }
}
