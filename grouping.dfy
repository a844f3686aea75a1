/** GroupingRowSpanModel.java: a cell spans the maximal run of vertically
    adjacent rows whose value in its column is the very same object. */
module Grouping {
  import opened Spans

  /** An object reference. Cells are grouped by reference identity (Java's
      `==`/`!=` on objects), never by the content the object holds. */
  type Ref = nat

  /** The backing TableModel: `cells[r][c]` is `getValueAt(r, c)`. */
  datatype TableModel = TableModel(cells: seq<seq<Ref>>, columnCount: nat)
  {
    predicate Valid()
    {
      forall r :: 0 <= r < |cells| ==> |cells[r]| == columnCount
    }

    function RowCount(): nat
    {
      |cells|
    }

    function ValueAt(row: int, column: int): Ref
      requires Valid() && 0 <= row < RowCount() && 0 <= column < columnCount
    {
      cells[row][column]
    }
  }

  /** The upward scan: the first of `value, value - 1, ...` that is negative or
      whose cell is not the reference `val`. */
  function ScanUp(t: TableModel, column: int, val: Ref, value: int): (stop: int)
    requires t.Valid() && 0 <= column < t.columnCount
    requires -1 <= value < t.RowCount()
    ensures -1 <= stop <= value
    ensures stop >= 0 ==> t.ValueAt(stop, column) != val
    ensures forall k :: stop < k <= value ==> t.ValueAt(k, column) == val
    decreases value + 1
  {
    if value < 0 || t.ValueAt(value, column) != val then value
    else ScanUp(t, column, val, value - 1)
  }

  /** The downward scan: the first of `value, value + 1, ...` that is at least
      the row count or whose cell is not the reference `val`. */
  function ScanDown(t: TableModel, column: int, val: Ref, value: int): (stop: int)
    requires t.Valid() && 0 <= column < t.columnCount
    requires 0 <= value <= t.RowCount()
    ensures value <= stop <= t.RowCount()
    ensures stop < t.RowCount() ==> t.ValueAt(stop, column) != val
    ensures forall k :: value <= k < stop ==> t.ValueAt(k, column) == val
    decreases t.RowCount() - value
  {
    if value >= t.RowCount() || t.ValueAt(value, column) != val then value
    else ScanDown(t, column, val, value + 1)
  }

  /** `s` is a run of the reference `val` in `column` that cannot be extended
      upward or downward. */
  ghost predicate MaximalRun(t: TableModel, column: int, s: RowSpan, val: Ref)
    requires t.Valid() && 0 <= column < t.columnCount
  {
    0 <= s.minRow <= s.maxRow < t.RowCount() &&
    (forall k :: s.minRow <= k <= s.maxRow ==> t.ValueAt(k, column) == val) &&
    (s.minRow == 0 || t.ValueAt(s.minRow - 1, column) != val) &&
    (s.maxRow == t.RowCount() - 1 || t.ValueAt(s.maxRow + 1, column) != val)
  }

  /** `getSpan(row, column)`: the maximal run around `row` of cells holding the
      same reference as the cell at `(row, column)`. */
  function GetSpan(t: TableModel, row: int, column: int): (s: RowSpan)
    requires t.Valid() && 0 <= row < t.RowCount() && 0 <= column < t.columnCount
    ensures 0 <= s.minRow <= row <= s.maxRow <= t.RowCount() - 1
    ensures forall k :: s.minRow <= k <= s.maxRow ==> t.ValueAt(k, column) == t.ValueAt(row, column)
    ensures s.minRow == 0 || t.ValueAt(s.minRow - 1, column) != t.ValueAt(row, column)
    ensures s.maxRow == t.RowCount() - 1 || t.ValueAt(s.maxRow + 1, column) != t.ValueAt(row, column)
  {
    var val := t.ValueAt(row, column);
    var minRow := ScanUp(t, column, val, row - 1) + 1;
    var maxRow := ScanDown(t, column, val, row + 1) - 1;
    RowSpan(minRow, maxRow)
  }

  /** Two maximal runs of the same reference that share a row are the same run. */
  lemma {:induction false} MaximalRunUnique(t: TableModel, column: int, a: RowSpan, b: RowSpan, val: Ref, shared: int)
    requires t.Valid() && 0 <= column < t.columnCount
    requires MaximalRun(t, column, a, val) && MaximalRun(t, column, b, val)
    requires a.minRow <= shared <= a.maxRow && b.minRow <= shared <= b.maxRow
    ensures a == b
  {
  }

  /** Runs partition the column: every row of the span of `row` answers the
      identical span. */
  lemma {:induction false} SpanPartition(t: TableModel, row: int, other: int, column: int)
    requires t.Valid() && 0 <= row < t.RowCount() && 0 <= column < t.columnCount
    requires GetSpan(t, row, column).minRow <= other <= GetSpan(t, row, column).maxRow
    ensures GetSpan(t, other, column) == GetSpan(t, row, column)
  {
    var s := GetSpan(t, row, column);
    var val := t.ValueAt(row, column);
    assert t.ValueAt(other, column) == val;
    assert MaximalRun(t, column, s, val);
    assert MaximalRun(t, column, GetSpan(t, other, column), val);
    MaximalRunUnique(t, column, s, GetSpan(t, other, column), val, other);
  }

  /** Only identity counts: two adjacent cells holding distinct references are
      never merged, whatever content `contentOf` sees in those objects. */
  lemma DistinctReferencesSplit<C>(t: TableModel, row: int, column: int, contentOf: Ref -> C)
    requires t.Valid() && 0 <= row && row + 1 < t.RowCount() && 0 <= column < t.columnCount
    requires contentOf(t.ValueAt(row, column)) == contentOf(t.ValueAt(row + 1, column))
    requires t.ValueAt(row, column) != t.ValueAt(row + 1, column)
    ensures GetSpan(t, row, column).maxRow == row
    ensures GetSpan(t, row + 1, column).minRow == row + 1
  {
  }

  /** The model as a RowSpanModel. Outside the table the Java code fails inside
      `getValueAt`; this instance answers the single row there. */
  function Model(t: TableModel): (m: SpanModel)
    requires t.Valid()
    ensures Anchored(m)
  {
    (r, c) => if 0 <= r < t.RowCount() && 0 <= c < t.columnCount then GetSpan(t, r, c) else RowSpan(r, r)
  }
}
