/**
 * The hover zones of the full table that ask the host to insert a column or
 * a row. Each zone passes a fixed index to `onAddColumn` or `onAddRow`; the
 * functions below list those indices in the order the zones are rendered.
 */
module InsertZones {

  import opened TableModel

  /** The zone in the leftmost header cell inserts before every column. */
  const LeftmostColumnZone: nat := 0

  /** The zone on the right edge of the header at `index` inserts after it. */
  function HeaderZone(index: nat): nat
  {
    index + 1
  }

  /**
   * The column indices offered by a header row with `headerCount` headers:
   * every insertion position from 0 to `headerCount`, each exactly once, in
   * increasing order.
   */
  function ColumnZoneTargets(headerCount: nat): (r: seq<nat>)
    ensures |r| == headerCount + 1
    ensures forall k :: 0 <= k < |r| ==> r[k] == k
  {
    if headerCount == 0 then [LeftmostColumnZone]
    else ColumnZoneTargets(headerCount - 1) + [HeaderZone(headerCount - 1)]
  }

  /**
   * The row zones rendered with the row at `index`: the one above the first
   * row (index 0) only for the first row, then the one below the row.
   */
  function RowFragmentZones(index: nat): seq<nat>
  {
    (if index == 0 then [0] else []) + [index + 1]
  }

  /**
   * The row indices offered by a table with `rowCount` rows. With at least
   * one row they are every insertion position from 0 to `rowCount` in
   * order; an empty table renders no row zone at all.
   */
  function RowZoneTargets(rowCount: nat): (r: seq<nat>)
    ensures rowCount == 0 ==> r == []
    ensures rowCount > 0 ==> |r| == rowCount + 1 && forall k :: 0 <= k < |r| ==> r[k] == k
  {
    if rowCount == 0 then []
    else RowZoneTargets(rowCount - 1) + RowFragmentZones(rowCount - 1)
  }

  /**
   * The number of table cells a row zone spans: one per header cell, i.e.
   * the leading control cell plus one per column.
   */
  function RowZoneSpan(t: Table): (span: nat)
    ensures span == |ColumnZoneTargets(|t.columnOrder|)|
    ensures span > |t.columnOrder|
  {
    |t.columnOrder| + 1
  }
}
