/**
 * The default cell editor both tables render in every data cell. It keeps
 * a local draft that starts as the cell's value; typing changes the draft,
 * losing focus hands it to the table's `updateData` hook, and a change of
 * the cell's value from outside resets the draft. The value read from the
 * row is `undefined` (here `None`) when the row has no entry for the column.
 */
module CellEdit {

  import opened Wrappers
  import opened TableModel

  /**
   * The cell's value as last rendered (`initialValue`, the dependency of the
   * resync effect) and the local draft.
   */
  datatype Cell = Cell(initial: Option<string>, draft: Option<string>)

  /**
   * What reaches the cell: an input change with the input's whole value,
   * focus loss, or a re-render with a (possibly new) value from the row.
   */
  datatype Event = Input(text: string) | Blur | Rerender(value: Option<string>)

  /** A call `updateData(row, rowIndex, columnId, draft)`. */
  datatype Commit = Commit(row: Row, rowIndex: nat, columnId: Id, value: Option<string>)

  /**
   * The value the cell reads from its row (`accessorKey: col.id`): the
   * row object's field named by the column id, if any. A column whose id
   * is `id` reads the row's own id.
   */
  function ValueOf(row: Row, columnId: Id): (v: Option<string>)
    ensures columnId == RowIdKey ==> v == Some(row.id)
    ensures columnId != RowIdKey ==> (v.Some? <==> columnId in row.cells)
    ensures columnId != RowIdKey && v.Some? ==> v.value == row.cells[columnId]
  {
    if columnId == RowIdKey then Some(row.id)
    else if columnId in row.cells then Some(row.cells[columnId])
    else None
  }

  /** On mount the draft is the cell's value. */
  function Mount(row: Row, columnId: Id): (c: Cell)
    ensures c.initial == c.draft == ValueOf(row, columnId)
  {
    Cell(ValueOf(row, columnId), ValueOf(row, columnId))
  }

  /**
   * One event. Only the full table installs `updateData` (as the host's
   * `onRenameCell`); the compact widget installs no table meta, so the
   * optional call on blur does nothing there. The resync effect depends on
   * the value alone, so it resets the draft only when the value differs
   * from the last rendered one.
   */
  function Step(w: Widget, row: Row, rowIndex: nat, columnId: Id, c: Cell, ev: Event): (r: (Cell, Option<Commit>))
    ensures ev.Input? ==> r == (Cell(c.initial, Some(ev.text)), None)
    ensures ev.Blur? ==> r.0 == c
    ensures ev.Blur? && w == Draggable ==> r.1 == Some(Commit(row, rowIndex, columnId, c.draft))
    ensures w == Dynamic ==> r.1 == None
    ensures ev.Rerender? ==> r.1 == None && r.0.initial == ev.value
    ensures ev.Rerender? && ev.value != c.initial ==> r.0.draft == ev.value
    ensures ev.Rerender? && ev.value == c.initial ==> r.0 == c
  {
    match ev
    case Input(text) => (Cell(c.initial, Some(text)), None)
    case Blur =>
      var call := match w
        case Draggable => Some(Commit(row, rowIndex, columnId, c.draft))
        case Dynamic => None;
      (c, call)
    case Rerender(value) =>
      if value != c.initial then (Cell(value, value), None) else (c, None)
  }

  /**
   * Typing then leaving the cell in the full table commits the typed text
   * for exactly that row, index and column.
   */
  lemma TypeThenBlurCommits(row: Row, rowIndex: nat, columnId: Id, c: Cell, text: string)
    ensures var typed := Step(Draggable, row, rowIndex, columnId, c, Input(text)).0;
            Step(Draggable, row, rowIndex, columnId, typed, Blur).1 ==
              Some(Commit(row, rowIndex, columnId, Some(text)))
  {
  }

  /**
   * The draft survives a re-render that brings the same value back: after
   * typing, a re-render with the unchanged value keeps the typed text, and
   * a later blur commits it.
   */
  lemma DraftSurvivesUnchangedValue(row: Row, rowIndex: nat, columnId: Id, c: Cell, text: string)
    ensures var typed := Step(Draggable, row, rowIndex, columnId, c, Input(text)).0;
            var again := Step(Draggable, row, rowIndex, columnId, typed, Rerender(c.initial)).0;
            again.draft == Some(text) &&
            Step(Draggable, row, rowIndex, columnId, again, Blur).1 ==
              Some(Commit(row, rowIndex, columnId, Some(text)))
  {
  }

  /**
   * A changed value from outside overwrites an uncommitted draft: a blur
   * after it commits the outside value, not the typed text.
   */
  lemma ChangedValueOverwritesDraft(row: Row, rowIndex: nat, columnId: Id, c: Cell, text: string, v: Option<string>)
    requires v != c.initial
    ensures var typed := Step(Draggable, row, rowIndex, columnId, c, Input(text)).0;
            var synced := Step(Draggable, row, rowIndex, columnId, typed, Rerender(v)).0;
            Step(Draggable, row, rowIndex, columnId, synced, Blur).1 ==
              Some(Commit(row, rowIndex, columnId, v))
  {
  }
}
