/**
 * The drag-end handler of `DraggableTable`. `DynamicWidget` defines the
 * same handler but renders nothing draggable, so it never fires there.
 * The drag library reports the dragged item (`active`) and the item under
 * the pointer when it was released (`over`), either of which may be
 * missing. The gesture is routed by the dragged id alone: an id found in the
 * column order reorders columns, any other id reorders rows.
 */
module DragReorder {

  import opened Wrappers
  import opened Sequences
  import opened TableModel

  /** The (active, over) pair the library hands to `onDragEnd`. */
  datatype DragEnd = DragEnd(active: Option<Id>, over: Option<Id>)

  /** No item dragged, nothing under the pointer, or dropped onto itself. */
  predicate IsNoOp(ev: DragEnd)
  {
    ev.active.None? || ev.over.None? || ev.active.value == ev.over.value
  }

  predicate RoutesToColumns(t: Table, ev: DragEnd)
  {
    !IsNoOp(ev) && ev.active.value in t.columnOrder
  }

  predicate RoutesToRows(t: Table, ev: DragEnd)
  {
    !IsNoOp(ev) && ev.active.value !in t.columnOrder
  }

  /**
   * Both ids are found on the axis the gesture is routed to, so neither
   * `indexOf` nor `findIndex` returns -1.
   */
  predicate TargetsPresent(t: Table, ev: DragEnd)
  {
    IsNoOp(ev) ||
    if ev.active.value in t.columnOrder then ev.over.value in t.columnOrder
    else ev.active.value in RowIds(t.rows) && ev.over.value in RowIds(t.rows)
  }

  /** `handleDragEnd`: reorders exactly one axis, or nothing. */
  function HandleDragEnd(t: Table, ev: DragEnd): (r: Table)
    requires TargetsPresent(t, ev)
    ensures IsNoOp(ev) ==> r == t
    ensures RoutesToColumns(t, ev) ==>
              && r.rows == t.rows
              && multiset(r.columnOrder) == multiset(t.columnOrder)
              && |r.columnOrder| == |t.columnOrder|
              && r.columnOrder[IndexOf(t.columnOrder, ev.over.value)] == ev.active.value
    ensures RoutesToRows(t, ev) ==>
              && r.columnOrder == t.columnOrder
              && multiset(r.rows) == multiset(t.rows)
              && |r.rows| == |t.rows|
              && r.rows[IndexOf(RowIds(t.rows), ev.over.value)] == t.rows[IndexOf(RowIds(t.rows), ev.active.value)]
              && r.rows[IndexOf(RowIds(t.rows), ev.over.value)].id == ev.active.value
  {
    if IsNoOp(ev) then t
    else
      var active, over := ev.active.value, ev.over.value;
      if active in t.columnOrder then
        var order := t.columnOrder;
        Table(ArrayMove(order, IndexOf(order, active), IndexOf(order, over)), t.rows)
      else
        var ids := RowIds(t.rows);
        Table(t.columnOrder, ArrayMove(t.rows, IndexOf(ids, active), IndexOf(ids, over)))
  }

  /** A column drag is the array move between the two ids' positions. */
  lemma ColumnDragIsMove(t: Table, a: Id, b: Id)
    requires a in t.columnOrder && b in t.columnOrder && a != b
    ensures HandleDragEnd(t, DragEnd(Some(a), Some(b))) ==
            Table(ArrayMove(t.columnOrder, IndexOf(t.columnOrder, a), IndexOf(t.columnOrder, b)), t.rows)
  {
  }

  /** A row drag is the array move between the two rows' positions. */
  lemma RowDragIsMove(t: Table, a: Id, b: Id)
    requires a !in t.columnOrder && a in RowIds(t.rows) && b in RowIds(t.rows) && a != b
    ensures HandleDragEnd(t, DragEnd(Some(a), Some(b))) ==
            Table(t.columnOrder, ArrayMove(t.rows, IndexOf(RowIds(t.rows), a), IndexOf(RowIds(t.rows), b)))
  {
  }

  /**
   * A column drag on a duplicate-free column order keeps it a
   * duplicate-free arrangement of the same ids.
   */
  lemma ColumnDragKeepsPermutation(t: Table, a: Id, b: Id)
    requires Distinct(t.columnOrder) && a in t.columnOrder && b in t.columnOrder && a != b
    ensures var r := HandleDragEnd(t, DragEnd(Some(a), Some(b)));
            && Distinct(r.columnOrder)
            && (forall x :: x in r.columnOrder <==> x in t.columnOrder)
  {
    var from, to := IndexOf(t.columnOrder, a), IndexOf(t.columnOrder, b);
    ColumnDragIsMove(t, a, b);
    ArrayMoveKeepsDistinct(t.columnOrder, from, to);
    ArrayMoveSameElements(t.columnOrder, from, to);
  }

  /**
   * Where a column drag puts the two ids: the dragged id takes the position
   * the target id had, and the target id ends beside it, on the side the
   * dragged id came from.
   */
  lemma ColumnDragPlacement(t: Table, a: Id, b: Id)
    requires a in t.columnOrder && b in t.columnOrder && a != b
    ensures var r := HandleDragEnd(t, DragEnd(Some(a), Some(b))).columnOrder;
            var from, to := IndexOf(t.columnOrder, a), IndexOf(t.columnOrder, b);
            && |r| == |t.columnOrder|
            && r[to] == a
            && (if from < to then r[to - 1] == b else r[to + 1] == b)
  {
    var s := t.columnOrder;
    ColumnDragIsMove(t, a, b);
    ArrayMoveDisplacedNeighbour(s, IndexOf(s, a), IndexOf(s, b));
  }

  /**
   * What a column drag does to the other ids: those between the two
   * positions shift one place towards the dragged id's old position, and
   * those outside both positions stay where they were.
   */
  lemma ColumnDragShifts(t: Table, a: Id, b: Id)
    requires a in t.columnOrder && b in t.columnOrder && a != b
    ensures var r := HandleDragEnd(t, DragEnd(Some(a), Some(b))).columnOrder;
            var s := t.columnOrder;
            var from, to := IndexOf(s, a), IndexOf(s, b);
            && |r| == |s|
            && (forall k :: from <= k < to ==> r[k] == s[k + 1])
            && (forall k :: to < k <= from ==> r[k] == s[k - 1])
            && (forall k :: 0 <= k < |s| && ((k < from && k < to) || (k > from && k > to)) ==> r[k] == s[k])
  {
    var s := t.columnOrder;
    ColumnDragIsMove(t, a, b);
    ArrayMoveShifts(s, IndexOf(s, a), IndexOf(s, b));
  }

  /**
   * Columns other than the dragged one keep their relative order: for any
   * two of them, the one shown first before the drag is shown first after it.
   */
  lemma ColumnDragKeepsOthersInOrder(t: Table, a: Id, b: Id, x: Id, y: Id)
    requires Distinct(t.columnOrder) && a in t.columnOrder && b in t.columnOrder && a != b
    requires x in t.columnOrder && y in t.columnOrder && x != a && y != a
    ensures var r := HandleDragEnd(t, DragEnd(Some(a), Some(b)));
            x in r.columnOrder && y in r.columnOrder &&
            (IndexOf(t.columnOrder, x) < IndexOf(t.columnOrder, y) <==>
             IndexOf(r.columnOrder, x) < IndexOf(r.columnOrder, y))
  {
    var s := t.columnOrder;
    ColumnDragIsMove(t, a, b);
    ArrayMoveKeepsOthersInOrder(s, IndexOf(s, a), IndexOf(s, b), x, y);
  }

  /**
   * Dragging the same column back onto the id that now occupies its old
   * position restores the original order.
   */
  lemma ColumnDragBackRestores(t: Table, a: Id, b: Id)
    requires Distinct(t.columnOrder) && a in t.columnOrder && b in t.columnOrder && a != b
    ensures var t1 := HandleDragEnd(t, DragEnd(Some(a), Some(b)));
            var back := t1.columnOrder[IndexOf(t.columnOrder, a)];
            back != a && back in t1.columnOrder &&
            HandleDragEnd(t1, DragEnd(Some(a), Some(back))) == t
  {
    var s := t.columnOrder;
    var from, to := IndexOf(s, a), IndexOf(s, b);
    var r := ArrayMove(s, from, to);
    ColumnDragIsMove(t, a, b);
    ArrayMoveKeepsDistinct(s, from, to);
    IndexOfDistinct(r, to);
    IndexOfDistinct(r, from);
    var back := r[from];
    ColumnDragIsMove(Table(r, t.rows), a, back);
    ArrayMoveInverse(s, from, to);
  }

  /**
   * A row drag moves the dragged row, contents and all, to the target's old
   * position; the target row ends beside it and the column order stays.
   */
  lemma RowDragPlacement(t: Table, a: Id, b: Id)
    requires a !in t.columnOrder && a in RowIds(t.rows) && b in RowIds(t.rows) && a != b
    ensures var r := HandleDragEnd(t, DragEnd(Some(a), Some(b)));
            var from, to := IndexOf(RowIds(t.rows), a), IndexOf(RowIds(t.rows), b);
            && r.columnOrder == t.columnOrder
            && r.rows[to] == t.rows[from]
            && (if from < to then r.rows[to - 1] == t.rows[to] else r.rows[to + 1] == t.rows[to])
  {
    var from, to := IndexOf(RowIds(t.rows), a), IndexOf(RowIds(t.rows), b);
    RowDragIsMove(t, a, b);
    ArrayMoveDisplacedNeighbour(t.rows, from, to);
  }

  /**
   * A row drag keeps the same rows, and keeps distinct row ids distinct.
   */
  lemma RowDragKeepsPermutation(t: Table, a: Id, b: Id)
    requires a !in t.columnOrder && a in RowIds(t.rows) && b in RowIds(t.rows) && a != b
    ensures var r := HandleDragEnd(t, DragEnd(Some(a), Some(b)));
            && (forall row :: row in r.rows <==> row in t.rows)
            && (Distinct(RowIds(t.rows)) ==> Distinct(RowIds(r.rows)))
  {
    var ids := RowIds(t.rows);
    var from, to := IndexOf(ids, a), IndexOf(ids, b);
    RowDragIsMove(t, a, b);
    ArrayMoveSameElements(t.rows, from, to);
    RowIdsOfMove(t.rows, from, to);
    if Distinct(ids) {
      ArrayMoveKeepsDistinct(ids, from, to);
    }
  }

  /** Moving rows moves their ids the same way. */
  lemma RowIdsOfMove(rows: seq<Row>, from: nat, to: nat)
    requires from < |rows| && to < |rows|
    ensures RowIds(ArrayMove(rows, from, to)) == ArrayMove(RowIds(rows), from, to)
  {
    var moved, ids := ArrayMove(rows, from, to), RowIds(rows);
    var l, r := RowIds(moved), ArrayMove(ids, from, to);
    forall k | 0 <= k < |l|
      ensures l[k] == r[k]
    {
      var src := Source(from, to, k);
      assert moved[k] == rows[src];
      assert r[k] == ids[src];
    }
  }

  /**
   * What a row drag does to the other rows: those between the two
   * positions shift one place towards the dragged row's old position, and
   * those outside both positions stay where they were.
   */
  lemma RowDragShifts(t: Table, a: Id, b: Id)
    requires a !in t.columnOrder && a in RowIds(t.rows) && b in RowIds(t.rows) && a != b
    ensures var r := HandleDragEnd(t, DragEnd(Some(a), Some(b))).rows;
            var s := t.rows;
            var from, to := IndexOf(RowIds(s), a), IndexOf(RowIds(s), b);
            && |r| == |s|
            && (forall k :: from <= k < to ==> r[k] == s[k + 1])
            && (forall k :: to < k <= from ==> r[k] == s[k - 1])
            && (forall k :: 0 <= k < |s| && ((k < from && k < to) || (k > from && k > to)) ==> r[k] == s[k])
  {
    var ids := RowIds(t.rows);
    RowDragIsMove(t, a, b);
    ArrayMoveShifts(t.rows, IndexOf(ids, a), IndexOf(ids, b));
  }

  /**
   * Rows other than the dragged one keep their relative order: for any two
   * of them, the one shown first before the drag is shown first after it.
   */
  lemma RowDragKeepsOthersInOrder(t: Table, a: Id, b: Id, x: Id, y: Id)
    requires Distinct(RowIds(t.rows)) && a !in t.columnOrder
    requires a in RowIds(t.rows) && b in RowIds(t.rows) && a != b
    requires x in RowIds(t.rows) && y in RowIds(t.rows) && x != a && y != a
    ensures var r := HandleDragEnd(t, DragEnd(Some(a), Some(b)));
            x in RowIds(r.rows) && y in RowIds(r.rows) &&
            (IndexOf(RowIds(t.rows), x) < IndexOf(RowIds(t.rows), y) <==>
             IndexOf(RowIds(r.rows), x) < IndexOf(RowIds(r.rows), y))
  {
    var ids := RowIds(t.rows);
    var from, to := IndexOf(ids, a), IndexOf(ids, b);
    RowDragIsMove(t, a, b);
    RowIdsOfMove(t.rows, from, to);
    ArrayMoveKeepsOthersInOrder(ids, from, to, x, y);
  }

  /**
   * Dragging the same row back onto the row that now occupies its old
   * position restores the original rows.
   */
  lemma RowDragBackRestores(t: Table, a: Id, b: Id)
    requires Distinct(RowIds(t.rows)) && a !in t.columnOrder
    requires a in RowIds(t.rows) && b in RowIds(t.rows) && a != b
    ensures var t1 := HandleDragEnd(t, DragEnd(Some(a), Some(b)));
            var back := RowIds(t1.rows)[IndexOf(RowIds(t.rows), a)];
            back != a && back in RowIds(t1.rows) &&
            HandleDragEnd(t1, DragEnd(Some(a), Some(back))) == t
  {
    var ids := RowIds(t.rows);
    var from, to := IndexOf(ids, a), IndexOf(ids, b);
    var moved := ArrayMove(t.rows, from, to);
    RowDragIsMove(t, a, b);
    RowIdsOfMove(t.rows, from, to);
    var movedIds := RowIds(moved);
    ArrayMoveKeepsDistinct(ids, from, to);
    IndexOfDistinct(movedIds, to);
    IndexOfDistinct(movedIds, from);
    var back := movedIds[from];
    RowDragIsMove(Table(t.columnOrder, moved), a, back);
    ArrayMoveInverse(t.rows, from, to);
  }

  /**
   * In the full table a row reorder lives only in local state: once the
   * `rows` input changes, the rows are replaced as if no drag had happened.
   */
  lemma RowsChangeDropsReorder(t: Table, ev: DragEnd, rows: seq<Row>)
    requires TargetsPresent(t, ev) && RoutesToRows(t, ev)
    ensures RowsChanged(Draggable, HandleDragEnd(t, ev), rows) == RowsChanged(Draggable, t, rows)
  {
  }

  /**
   * A row whose id is also a column id is routed to the column axis: the
   * rows stay where they are.
   */
  lemma SharedIdRoutesToColumns(t: Table, a: Id, b: Id)
    requires a in t.columnOrder && a in RowIds(t.rows) && b in t.columnOrder && a != b
    ensures HandleDragEnd(t, DragEnd(Some(a), Some(b))).rows == t.rows
  {
  }

  /**
   * A column reorder lives only in local state: once the `columns` input
   * changes, the order is derived from the new columns as if no drag had
   * happened.
   */
  lemma ColumnsChangeDropsReorder(t: Table, ev: DragEnd, columns: seq<Column>)
    requires TargetsPresent(t, ev) && RoutesToColumns(t, ev)
    ensures ColumnsChanged(HandleDragEnd(t, ev), columns) == ColumnsChanged(t, columns)
  {
  }
}
