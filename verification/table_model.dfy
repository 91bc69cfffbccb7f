/**
 * The state the editable table keeps of its own: the column order (a list
 * of column ids, kept apart from the column definitions so that columns can
 * be reordered without touching them) and the local copy of the rows.
 * Both table variants, the full `DraggableTable` and the compact
 * `DynamicWidget`, derive the column order from the columns they are given.
 */
module TableModel {

  import opened Sequences

  type Id = string

  /** A column definition as the host hands it in. */
  datatype Column = Column(id: Id, header: string, width: int, metadata: map<string, string>)

  /**
   * A row: one plain object whose `id` field is its stable id and whose
   * other fields are cell values keyed by column id. The `id` field is kept
   * apart; an `"id"` entry in `cells` is hidden behind it, as the object
   * has only one field of that name.
   */
  datatype Row = Row(id: Id, cells: map<Id, string>)

  /** The field of a row object that holds its id (`getRowId: (row) => row.id`). */
  const RowIdKey: Id := "id"

  /** Which of the two table components holds the state. */
  datatype Widget = Draggable | Dynamic

  /** The component's local state: column order and rows, each in display order. */
  datatype Table = Table(columnOrder: seq<Id>, rows: seq<Row>)

  /**
   * No two columns share an id: the condition a host states on its column
   * definitions, which `ColumnIds` turns into a duplicate-free order.
   */
  predicate UniqueColumnIds(columns: seq<Column>)
  {
    forall i, j :: 0 <= i < |columns| && 0 <= j < |columns| && i != j ==> columns[i].id != columns[j].id
  }

  /**
   * `columns.map((c) => c.id)`: the column order derived from the columns.
   * It names every column and nothing else, and when the ids are unique it
   * names each exactly once.
   */
  function ColumnIds(columns: seq<Column>): (ids: seq<Id>)
    ensures |ids| == |columns|
    ensures forall i :: 0 <= i < |columns| ==> ids[i] == columns[i].id
    ensures forall c :: c in columns ==> c.id in ids
    ensures forall x :: x in ids ==> exists c :: c in columns && c.id == x
    ensures UniqueColumnIds(columns) ==> Distinct(ids)
  {
    if |columns| == 0 then []
    else
      var rest := ColumnIds(columns[1..]);
      assert UniqueColumnIds(columns) ==> UniqueColumnIds(columns[1..]) && columns[0].id !in rest;
      [columns[0].id] + rest
  }

  /** The row ids in display order, as `findIndex` over the rows sees them. */
  function RowIds(rows: seq<Row>): (ids: seq<Id>)
    ensures |ids| == |rows|
    ensures forall i :: 0 <= i < |rows| ==> ids[i] == rows[i].id
  {
    if |rows| == 0 then []
    else [rows[0].id] + RowIds(rows[1..])
  }

  /**
   * Initial state on mount: the column order is derived from the columns
   * and the rows are taken as given.
   */
  function Mount(columns: seq<Column>, rows: seq<Row>): (t: Table)
    ensures t.rows == rows
    ensures |t.columnOrder| == |columns|
    ensures forall i :: 0 <= i < |columns| ==> t.columnOrder[i] == columns[i].id
  {
    Table(ColumnIds(columns), rows)
  }

  /**
   * The effect that runs when the `columns` input changes: the column order
   * is derived afresh from the new columns (any local reorder is dropped)
   * and the rows are left alone.
   */
  function ColumnsChanged(t: Table, columns: seq<Column>): (r: Table)
    ensures r.rows == t.rows
    ensures r == Mount(columns, t.rows)
  {
    Table(ColumnIds(columns), t.rows)
  }

  /**
   * The effect that runs when the `rows` input changes. Only the full table
   * has it; the compact widget keeps its local rows.
   */
  function RowsChanged(w: Widget, t: Table, rows: seq<Row>): (r: Table)
    ensures r.columnOrder == t.columnOrder
    ensures w == Draggable ==> r.rows == rows
    ensures w == Dynamic ==> r == t
  {
    match w
    case Draggable => Table(t.columnOrder, rows)
    case Dynamic => t
  }
}
