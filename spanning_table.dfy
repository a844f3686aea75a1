/** RowSpanningTable.java: a JTable whose cell geometry, selection rendering
    and repaint regions follow the spans answered by a RowSpanModel. */
module SpanningTable {
  import opened Geometry
  import opened Spans

  datatype Option<T> = None | Some(value: T)

  /** The JTable state and collaborators the table consults. None of them is
      defined in this repository, so each is an input here. */
  datatype Host = Host(
    rowCount: nat,
    columnCount: nat,
    rowToView: int -> int,                 // convertRowIndexToView: -1 for a hidden row
    rowToModel: int -> int,                // convertRowIndexToModel
    columnToModel: int -> int,             // convertColumnIndexToModel
    underlying: (int, int, bool) -> Rect,  // JTable.getCellRect(row, column, includeSpacing)
    rowMargin: int,                        // getRowMargin()
    columnMargin: int,                     // getColumnModel().getColumnMargin()
    isCellSelected: (int, int) -> bool,
    leadRow: int,                          // selectionModel.getLeadSelectionIndex()
    leadColumn: int,                       // the column selection model's lead index
    paintingForPrint: bool,                // isPaintingForPrint()
    focusOwner: bool,                      // isFocusOwner()
    rowAtPoint: Point -> int,
    columnAtPoint: Point -> int,
    rowHeight: int -> int,                 // getRowHeight(row)
    columnWidth: int -> int,               // getColumnModel().getColumn(col).getWidth()
    showHorizontalLines: bool,
    showVerticalLines: bool,
    leftToRight: bool,                     // getComponentOrientation().isLeftToRight()
    editing: bool,                         // isEditing()
    editingRow: int,
    editingColumn: int)

  // ---------------------------------------------------------------------------
  // Host geometry

  /** Total height of the rows `lo .. hi - 1`. */
  function RowHeights(host: Host, lo: int, hi: int): int
    decreases hi - lo
  {
    if hi <= lo then 0 else RowHeights(host, lo, hi - 1) + host.rowHeight(hi - 1)
  }

  /** Total width of the columns `lo .. hi - 1`. */
  function ColumnWidths(host: Host, lo: int, hi: int): int
    decreases hi - lo
  {
    if hi <= lo then 0 else ColumnWidths(host, lo, hi - 1) + host.columnWidth(hi - 1)
  }

  /** No row of the table has a negative height. */
  ghost predicate NonNegativeHeights(host: Host)
  {
    forall r :: 0 <= r < host.rowCount ==> host.rowHeight(r) >= 0
  }

  /** JTable's layout of one column: every row's rectangle has the column's `x`
      and `width`, starts where the rows above it end, and is as tall as the row.
      Only the rows of the table are constrained. */
  ghost predicate ColumnLayout(host: Host, column: int, x: int, width: int)
  {
    NonNegativeHeights(host) && width >= 0 &&
    forall r {:trigger host.underlying(r, column, true)} :: 0 <= r < host.rowCount ==>
      host.underlying(r, column, true) == Rect(x, RowHeights(host, 0, r), width, host.rowHeight(r))
  }

  /** JTable's x for a column: the widths of the columns before it, or, right
      to left, of the columns after it. */
  function ColumnX(host: Host, column: int): int
  {
    if host.leftToRight then ColumnWidths(host, 0, column) else ColumnWidths(host, column + 1, host.columnCount)
  }

  /** JTable's layout of the whole table: each column laid out at its
      `ColumnX`, as wide as the column model says. */
  ghost predicate TableLayout(host: Host)
  {
    forall c {:trigger ColumnX(host, c)} :: 0 <= c < host.columnCount ==>
      ColumnLayout(host, c, ColumnX(host, c), host.columnWidth(c))
  }

  /** Every model row of `span` is hidden or shown at a view row of the table. */
  ghost predicate ShownInTable(host: Host, span: RowSpan)
  {
    forall mr :: span.minRow <= mr <= span.maxRow ==> host.rowToView(mr) < host.rowCount
  }

  /** The span of every cell of the table is shown inside the table. */
  ghost predicate SpansShown(host: Host, m: SpanModel)
  {
    forall r, c :: 0 <= r < host.rowCount && 0 <= c < host.columnCount ==>
      ShownInTable(host, m(host.rowToModel(r), host.columnToModel(c)))
  }

  /** Lower rows start further down. */
  lemma {:induction false} RowHeightsMonotone(host: Host, lo: int, mid: int, hi: int)
    requires NonNegativeHeights(host) && 0 <= lo <= mid <= hi <= host.rowCount
    ensures RowHeights(host, lo, mid) <= RowHeights(host, lo, hi)
    decreases hi - mid
  {
    if mid < hi {
      RowHeightsMonotone(host, lo, mid, hi - 1);
    }
  }

  // ---------------------------------------------------------------------------
  // convertRowSpanToView and getViewRowSpan

  /** `rs.mapToObj(this::convertRowIndexToView).filter(r -> r >= 0)`: the view
      indices of the rows that are not hidden. */
  function VisibleRows(host: Host, rs: seq<int>): seq<int>
  {
    if rs == [] then []
    else (if host.rowToView(rs[0]) >= 0 then [host.rowToView(rs[0])] else []) + VisibleRows(host, rs[1..])
  }

  /** A view index is listed exactly when it is not negative and some row of
      `rs` converts to it. */
  lemma {:induction false} VisibleRowsMembership(host: Host, rs: seq<int>, v: int)
    ensures v in VisibleRows(host, rs) <==> v >= 0 && exists i :: 0 <= i < |rs| && host.rowToView(rs[i]) == v
  {
    if rs != [] {
      VisibleRowsMembership(host, rs[1..], v);
      assert forall i :: 0 <= i < |rs[1..]| ==> rs[1..][i] == rs[i + 1];
      if v >= 0 && exists i :: 0 <= i < |rs| && host.rowToView(rs[i]) == v {
        var i :| 0 <= i < |rs| && host.rowToView(rs[i]) == v;
        if i > 0 {
          assert host.rowToView(rs[1..][i - 1]) == v;
        }
      }
    }
  }

  /** The view rows into which the model rows of `span` are shown. */
  function ViewRows(host: Host, span: RowSpan): seq<int>
  {
    VisibleRows(host, span.Rows())
  }

  /** A view row is listed exactly when some model row of the span is shown there. */
  lemma ViewRowsMembership(host: Host, span: RowSpan, v: int)
    ensures v in ViewRows(host, span) <==>
      v >= 0 && exists m :: span.minRow <= m <= span.maxRow && host.rowToView(m) == v
  {
    var rs := span.Rows();
    VisibleRowsMembership(host, rs, v);
    if v >= 0 && exists m :: span.minRow <= m <= span.maxRow && host.rowToView(m) == v {
      var m :| span.minRow <= m <= span.maxRow && host.rowToView(m) == v;
      assert rs[m - span.minRow] == m;
    }
  }

  /** The smallest element of a non-empty list. */
  function Lowest(list: seq<int>): (lo: int)
    requires |list| > 0
    ensures lo in list && forall v :: v in list ==> lo <= v
  {
    if |list| == 1 then list[0]
    else
      var rest := Lowest(list[1..]);
      assert forall v :: v in list ==> v == list[0] || v in list[1..];
      if list[0] <= rest then list[0] else rest
  }

  /** The largest element of a non-empty list. */
  function Highest(list: seq<int>): (hi: int)
    requires |list| > 0
    ensures hi in list && forall v :: v in list ==> v <= hi
  {
    if |list| == 1 then list[0]
    else
      var rest := Highest(list[1..]);
      assert forall v :: v in list ==> v == list[0] || v in list[1..];
      if list[0] >= rest then list[0] else rest
  }

  /** `IntStream.iterate(1, k -> k + 1).map(k -> row - k).takeWhile(list::contains).count()`,
      with `cur` the candidate `row - k`: how many rows below `cur + 1` are listed without a gap. */
  function CountBelow(list: seq<int>, cur: int): nat
    decreases if cur in list then cur - Lowest(list) + 1 else 0
  {
    if cur in list then 1 + CountBelow(list, cur - 1) else 0
  }

  /** The rows counted are all listed, and the count stops at the first gap. */
  lemma {:induction false} CountBelowRun(list: seq<int>, cur: int)
    ensures forall v :: cur - CountBelow(list, cur) < v <= cur ==> v in list
    ensures cur - CountBelow(list, cur) !in list
    decreases if cur in list then cur - Lowest(list) + 1 else 0
  {
    if cur in list {
      CountBelowRun(list, cur - 1);
    }
  }

  /** The same count going up from `cur`, the candidate `row + k`. */
  function CountAbove(list: seq<int>, cur: int): nat
    decreases if cur in list then Highest(list) - cur + 1 else 0
  {
    if cur in list then 1 + CountAbove(list, cur + 1) else 0
  }

  lemma {:induction false} CountAboveRun(list: seq<int>, cur: int)
    ensures forall v :: cur <= v < cur + CountAbove(list, cur) ==> v in list
    ensures cur + CountAbove(list, cur) !in list
    decreases if cur in list then Highest(list) - cur + 1 else 0
  {
    if cur in list {
      CountAboveRun(list, cur + 1);
    }
  }

  /** `convertRowSpanToView(span, row)`: the run of shown rows of the model
      span that is contiguous in the view around the view row `row`. */
  function ConvertRowSpanToView(host: Host, span: RowSpan, row: int): (s: RowSpan)
    ensures s.minRow <= row <= s.maxRow
  {
    var spanList := ViewRows(host, span);
    RowSpan(row - CountBelow(spanList, row - 1), row + CountAbove(spanList, row + 1))
  }

  /** The converted span is the maximal run around `row` of view rows where
      rows of the model span are shown (`row` itself always included), and it
      stays in the non-negative view rows when `row` does. */
  lemma ConvertRowSpanToViewRun(host: Host, span: RowSpan, row: int)
    ensures var s := ConvertRowSpanToView(host, span, row);
      (forall v :: s.minRow <= v <= s.maxRow && v != row ==> v in ViewRows(host, span)) &&
      s.minRow - 1 !in ViewRows(host, span) && s.maxRow + 1 !in ViewRows(host, span) &&
      (row >= 0 ==> s.minRow >= 0)
  {
    var spanList := ViewRows(host, span);
    CountBelowRun(spanList, row - 1);
    CountAboveRun(spanList, row + 1);
    var fewerRows := CountBelow(spanList, row - 1);
    if fewerRows > 0 {
      assert row - fewerRows in spanList;
      ViewRowsMembership(host, span, row - fewerRows);
    }
  }

  /** Every row of the converted span other than `row` itself is where some
      model row of the span is shown; hidden rows never contribute. */
  lemma ConvertedRowsAreShown(host: Host, span: RowSpan, row: int, v: int)
    requires ConvertRowSpanToView(host, span, row).minRow <= v <= ConvertRowSpanToView(host, span, row).maxRow
    requires v != row
    ensures v >= 0 && exists m :: span.minRow <= m <= span.maxRow && host.rowToView(m) == v
  {
    ConvertRowSpanToViewRun(host, span, row);
    ViewRowsMembership(host, span, v);
  }

  /** `getViewRowSpan(row, column)`: the model's span for the cell, converted
      back into view rows around `row`. */
  function ViewRowSpan(host: Host, m: SpanModel, row: int, column: int): (s: RowSpan)
    ensures s.minRow <= row <= s.maxRow
  {
    ConvertRowSpanToView(host, m(host.rowToModel(row), host.columnToModel(column)), row)
  }

  // ---------------------------------------------------------------------------
  // getCellRect

  /** The rectangles `super.getCellRect(r, column, true)` of the rows
      `lo .. hi - 1`, added one after another to `new Rectangle(-1, -1)`. */
  function UnionRows(host: Host, column: int, lo: int, hi: int): Rect
    decreases hi - lo
  {
    if hi <= lo then NoRect
    else Add(UnionRows(host, column, lo, hi - 1), host.underlying(hi - 1, column, true))
  }

  /** The union covers every row rectangle that `add` takes into account, and
      is itself present exactly when one of them is. */
  lemma {:induction false} UnionRowsCovers(host: Host, column: int, lo: int, hi: int, k: int)
    requires lo <= k < hi && Present(host.underlying(k, column, true))
    ensures Present(UnionRows(host, column, lo, hi))
    ensures Contains(UnionRows(host, column, lo, hi), host.underlying(k, column, true))
    decreases hi - lo
  {
    if k < hi - 1 {
      UnionRowsCovers(host, column, lo, hi - 1, k);
      ContainsTransitive(UnionRows(host, column, lo, hi), UnionRows(host, column, lo, hi - 1),
                         host.underlying(k, column, true));
    }
  }

  /** The `!includeSpacing` step: margins bounded by the rectangle's own size,
      half of each taken off the leading side. */
  function Shrink(rec: Rect, rowMargin: int, columnMargin: int): (s: Rect)
    ensures Present(rec) ==> Present(s)
    ensures Present(rec) && rowMargin >= 0 && columnMargin >= 0 ==> Contains(rec, s)
    ensures 0 <= rowMargin <= rec.height && 0 <= columnMargin <= rec.width ==>
      s == Rect(rec.x + Half(columnMargin), rec.y + Half(rowMargin), rec.width - columnMargin, rec.height - rowMargin)
    ensures Present(rec) && rowMargin == 0 && columnMargin == 0 ==> s == rec
  {
    var rm := Min(rowMargin, rec.height);
    var cm := Min(columnMargin, rec.width);
    Rect(rec.x + Half(cm), rec.y + Half(rm), rec.width - cm, rec.height - rm)
  }

  /** `getCellRect(row, column, includeSpacing)` for a table whose span model
      is `spanModel` (None for the null model). */
  function CellRect(host: Host, spanModel: Option<SpanModel>, row: int, column: int, includeSpacing: bool): (r: Rect)
    ensures spanModel.None? ==> r == host.underlying(row, column, includeSpacing)
  {
    match spanModel
    case None => host.underlying(row, column, includeSpacing)
    case Some(m) =>
      var span := ViewRowSpan(host, m, row, column);
      var rec := UnionRows(host, column, span.minRow, span.maxRow + 1);
      if includeSpacing then rec else Shrink(rec, host.rowMargin, host.columnMargin)
  }

  /** The spanning rectangle covers the rectangle of every row of the cell's
      view span, and, without spacing, never has a negative size once some row
      of the span has a rectangle. */
  lemma CellRectCoversSpan(host: Host, m: SpanModel, row: int, column: int, k: int)
    requires ViewRowSpan(host, m, row, column).minRow <= k <= ViewRowSpan(host, m, row, column).maxRow
    requires Present(host.underlying(k, column, true))
    ensures Contains(CellRect(host, Some(m), row, column, true), host.underlying(k, column, true))
    ensures Present(CellRect(host, Some(m), row, column, false))
  {
    var s := ViewRowSpan(host, m, row, column);
    UnionRowsCovers(host, column, s.minRow, s.maxRow + 1, k);
  }

  /** Rows stacked as JTable lays them out add up to one rectangle from the
      top of the first row to the bottom of the last. */
  lemma {:induction false} UnionRowsStacked(host: Host, column: int, x: int, width: int, lo: int, hi: int)
    requires ColumnLayout(host, column, x, width) && 0 <= lo < hi <= host.rowCount
    ensures UnionRows(host, column, lo, hi) ==
      Rect(x, RowHeights(host, 0, lo), width, RowHeights(host, 0, hi) - RowHeights(host, 0, lo))
    decreases hi - lo
  {
    if hi - 1 > lo {
      UnionRowsStacked(host, column, x, width, lo, hi - 1);
      RowHeightsMonotone(host, 0, lo, hi - 1);
      var prev := UnionRows(host, column, lo, hi - 1);
      var u := host.underlying(hi - 1, column, true);
      assert u == Rect(x, RowHeights(host, 0, hi - 1), width, host.rowHeight(hi - 1));
      assert RowHeights(host, 0, hi) == RowHeights(host, 0, hi - 1) + host.rowHeight(hi - 1);
      assert Present(prev) && Present(u);
      assert UnionRows(host, column, lo, hi) == Add(prev, u);
    } else {
      assert host.underlying(lo, column, true) == Rect(x, RowHeights(host, 0, lo), width, host.rowHeight(lo));
    }
  }

  /** With the JTable layout, the spanning rectangle of a cell is anchored at
      the top of the first row of its view span and is as tall as all the rows
      of that span together, which lies inside the table. The row is one of
      the table's, and the model rows of its span are hidden or shown inside
      the table. */
  lemma CellRectOfSpan(host: Host, m: SpanModel, row: int, column: int, x: int, width: int)
    requires ColumnLayout(host, column, x, width) && 0 <= row < host.rowCount
    requires ShownInTable(host, m(host.rowToModel(row), host.columnToModel(column)))
    ensures var s := ViewRowSpan(host, m, row, column);
      0 <= s.minRow && s.maxRow < host.rowCount &&
      CellRect(host, Some(m), row, column, true) ==
        Rect(x, RowHeights(host, 0, s.minRow), width, RowHeights(host, s.minRow, s.maxRow + 1))
  {
    var span := m(host.rowToModel(row), host.columnToModel(column));
    var s := ConvertRowSpanToView(host, span, row);
    ConvertRowSpanToViewRun(host, span, row);
    if s.maxRow != row {
      ConvertedRowsAreShown(host, span, row, s.maxRow);
    }
    UnionRowsBlock(host, column, x, width, s.minRow, s.maxRow + 1);
  }

  /** The stacked rows `lo .. hi - 1` as one block: its top is the height of
      the rows above `lo`, its height that of the rows themselves. */
  lemma UnionRowsBlock(host: Host, column: int, x: int, width: int, lo: int, hi: int)
    requires ColumnLayout(host, column, x, width) && 0 <= lo < hi <= host.rowCount
    ensures UnionRows(host, column, lo, hi) == Rect(x, RowHeights(host, 0, lo), width, RowHeights(host, lo, hi))
  {
    UnionRowsStacked(host, column, x, width, lo, hi);
    RowHeightsSplit(host, 0, lo, hi);
  }

  /** Heights of consecutive row ranges add up. */
  lemma {:induction false} RowHeightsSplit(host: Host, lo: int, mid: int, hi: int)
    requires lo <= mid <= hi
    ensures RowHeights(host, lo, hi) == RowHeights(host, lo, mid) + RowHeights(host, mid, hi)
    decreases hi - mid
  {
    if mid < hi {
      RowHeightsSplit(host, lo, mid, hi - 1);
    }
  }

  /** Widths of consecutive column ranges add up. */
  lemma {:induction false} ColumnWidthsSplit(host: Host, lo: int, mid: int, hi: int)
    requires lo <= mid <= hi
    ensures ColumnWidths(host, lo, hi) == ColumnWidths(host, lo, mid) + ColumnWidths(host, mid, hi)
    decreases hi - mid
  {
    if mid < hi {
      ColumnWidthsSplit(host, lo, mid, hi - 1);
    }
  }

  /** Columns of a laid-out table are never negatively wide together. */
  lemma {:induction false} ColumnWidthsNonNegative(host: Host, lo: int, hi: int)
    requires TableLayout(host) && 0 <= lo && hi <= host.columnCount
    ensures ColumnWidths(host, lo, hi) >= 0
    decreases hi - lo
  {
    if lo < hi {
      ColumnWidthsNonNegative(host, lo, hi - 1);
      assert ColumnLayout(host, hi - 1, ColumnX(host, hi - 1), host.columnWidth(hi - 1));
    }
  }

  // ---------------------------------------------------------------------------
  // prepareRenderer

  /** The selection and focus flags handed to the cell renderer. */
  datatype RenderState = RenderState(isSelected: bool, hasFocus: bool)

  /** `rs.mapToObj(r -> isCellSelected(r, column)).reduce(false, Boolean::logicalOr)`. */
  function AnySelected(host: Host, rs: seq<int>, column: int): bool
  {
    if rs == [] then false
    else AnySelected(host, rs[..|rs| - 1], column) || host.isCellSelected(rs[|rs| - 1], column)
  }

  /** The reduction is true exactly when some listed row is selected. */
  lemma {:induction false} AnySelectedExists(host: Host, rs: seq<int>, column: int)
    ensures AnySelected(host, rs, column) <==> exists i :: 0 <= i < |rs| && host.isCellSelected(rs[i], column)
  {
    if rs != [] {
      var init := rs[..|rs| - 1];
      AnySelectedExists(host, init, column);
      assert forall i :: 0 <= i < |init| ==> init[i] == rs[i];
      if exists i :: 0 <= i < |rs| && host.isCellSelected(rs[i], column) {
        var i :| 0 <= i < |rs| && host.isCellSelected(rs[i], column);
        if i < |init| {
          assert host.isCellSelected(init[i], column);
        }
      }
    }
  }

  /** Over the rows of a span, the reduction asks whether any row of the
      interval is selected. */
  lemma AnySelectedSpan(host: Host, span: RowSpan, column: int)
    ensures AnySelected(host, span.Rows(), column) <==>
      exists r :: span.minRow <= r <= span.maxRow && host.isCellSelected(r, column)
  {
    var rs := span.Rows();
    AnySelectedExists(host, rs, column);
    if exists r :: span.minRow <= r <= span.maxRow && host.isCellSelected(r, column) {
      var r :| span.minRow <= r <= span.maxRow && host.isCellSelected(r, column);
      assert rs[r - span.minRow] == r;
    }
  }

  /** The flags `prepareRenderer(renderer, row, column)` computes. */
  function PrepareRenderer(host: Host, spanModel: Option<SpanModel>, row: int, column: int): RenderState
  {
    if host.paintingForPrint then RenderState(false, false)
    else
      match spanModel
      case Some(m) =>
        var span := ViewRowSpan(host, m, row, column);
        var rs := span.Rows();
        var isSelected := AnySelected(host, rs, column);
        var rowIsLead := host.leadRow in rs;
        var colIsLead := host.leadColumn == column;
        RenderState(isSelected, rowIsLead && colIsLead && host.focusOwner)
      case None =>
        RenderState(host.isCellSelected(row, column),
                    host.leadRow == row && host.leadColumn == column && host.focusOwner)
  }

  /** When printing nothing is highlighted; otherwise a spanning cell is
      selected when any row of its view span is, and has the focus when the
      lead row lies in its view span; without a span model the cell answers
      for itself. A selected cell is always painted selected. */
  lemma PrepareRendererFlags(host: Host, spanModel: Option<SpanModel>, row: int, column: int)
    ensures var f := PrepareRenderer(host, spanModel, row, column);
      (host.paintingForPrint ==> f == RenderState(false, false)) &&
      (!host.paintingForPrint && spanModel.Some? ==>
        var s := ViewRowSpan(host, spanModel.value, row, column);
        (f.isSelected <==> exists r :: s.minRow <= r <= s.maxRow && host.isCellSelected(r, column)) &&
        (f.hasFocus <==> s.minRow <= host.leadRow <= s.maxRow && host.leadColumn == column && host.focusOwner)) &&
      (!host.paintingForPrint && spanModel.None? ==>
        f == RenderState(host.isCellSelected(row, column),
                         host.leadRow == row && host.leadColumn == column && host.focusOwner)) &&
      (!host.paintingForPrint && host.isCellSelected(row, column) ==> f.isSelected)
  {
    if !host.paintingForPrint && spanModel.Some? {
      var span := ViewRowSpan(host, spanModel.value, row, column);
      RowsMembership(span, host.leadRow);
      AnySelectedSpan(host, span, column);
    }
  }

  // ---------------------------------------------------------------------------
  // valueChanged

  /** `Math.min(getRowCount() - 1, Math.max(index, 0))`. */
  function ClampIndex(index: int, rowCount: nat): (r: int)
    ensures rowCount >= 1 ==> 0 <= r < rowCount
    ensures 0 <= index < rowCount ==> r == index
    ensures rowCount >= 1 && index < 0 ==> r == 0
    ensures index >= rowCount ==> r == rowCount - 1
    ensures rowCount == 0 ==> r == -1
  {
    Min(rowCount - 1, Max(index, 0))
  }

  /** `acc` with the cell rectangles of `row` in the columns `0 .. hi - 1` added. */
  function DirtyColumns(host: Host, spanModel: Option<SpanModel>, acc: Rect, row: int, hi: int): (d: Rect)
    ensures Present(acc) ==> Present(d) && Contains(d, acc)
    ensures forall c :: 0 <= c < hi && Present(CellRect(host, spanModel, row, c, false)) ==>
      Present(d) && Contains(d, CellRect(host, spanModel, row, c, false))
    decreases hi
  {
    if hi <= 0 then acc
    else
      var prev := DirtyColumns(host, spanModel, acc, row, hi - 1);
      var d := Add(prev, CellRect(host, spanModel, row, hi - 1, false));
      assert Present(acc) ==> Contains(d, acc) by {
        if Present(acc) {
          ContainsTransitive(d, prev, acc);
        }
      }
      assert forall c :: 0 <= c < hi - 1 && Present(CellRect(host, spanModel, row, c, false)) ==>
        Contains(d, CellRect(host, spanModel, row, c, false)) by {
        forall c | 0 <= c < hi - 1 && Present(CellRect(host, spanModel, row, c, false))
          ensures Contains(d, CellRect(host, spanModel, row, c, false))
        {
          ContainsTransitive(d, prev, CellRect(host, spanModel, row, c, false));
        }
      }
      d
  }

  /** The dirty region after the rows `first .. hi - 1`, all columns each. */
  function DirtyRows(host: Host, spanModel: Option<SpanModel>, first: int, hi: int): Rect
    decreases hi - first
  {
    if hi <= first then NoRect
    else DirtyColumns(host, spanModel, DirtyRows(host, spanModel, first, hi - 1), hi - 1, host.columnCount)
  }

  /** The region `valueChanged` repaints for a selection event over the rows
      `eventFirst .. eventLast`. */
  function DirtyRegion(host: Host, spanModel: Option<SpanModel>, eventFirst: int, eventLast: int): Rect
  {
    DirtyRows(host, spanModel, ClampIndex(eventFirst, host.rowCount), ClampIndex(eventLast, host.rowCount) + 1)
  }

  /** The dirty region covers the cell rectangle of every column of every row
      it went through. */
  lemma {:induction false} DirtyRowsCover(host: Host, spanModel: Option<SpanModel>, first: int, hi: int, row: int, column: int)
    requires first <= row < hi && 0 <= column < host.columnCount
    requires Present(CellRect(host, spanModel, row, column, false))
    ensures Contains(DirtyRows(host, spanModel, first, hi), CellRect(host, spanModel, row, column, false))
    decreases hi - first
  {
    if row < hi - 1 {
      DirtyRowsCover(host, spanModel, first, hi - 1, row, column);
      var prev := DirtyRows(host, spanModel, first, hi - 1);
      ContainsTransitive(DirtyRows(host, spanModel, first, hi), prev, CellRect(host, spanModel, row, column, false));
    }
  }

  /** A selection change repaints the whole visual span of every touched row
      in every column: with zero margins the repaint region covers the
      rectangle of each row of each cell's view span. */
  lemma RepaintCoversSpans(host: Host, m: SpanModel, eventFirst: int, eventLast: int, row: int, column: int, k: int)
    requires host.rowMargin == 0 && host.columnMargin == 0
    requires ClampIndex(eventFirst, host.rowCount) <= row <= ClampIndex(eventLast, host.rowCount)
    requires 0 <= column < host.columnCount
    requires ViewRowSpan(host, m, row, column).minRow <= k <= ViewRowSpan(host, m, row, column).maxRow
    requires Present(host.underlying(k, column, true))
    ensures Contains(DirtyRegion(host, Some(m), eventFirst, eventLast), host.underlying(k, column, true))
  {
    var u := host.underlying(k, column, true);
    var cell := CellRect(host, Some(m), row, column, false);
    CellRectCoversSpan(host, m, row, column, k);
    CellRectWithoutMargins(host, m, row, column);
    assert Contains(cell, u);
    var first := ClampIndex(eventFirst, host.rowCount);
    var last := ClampIndex(eventLast, host.rowCount);
    DirtyRowsCover(host, Some(m), first, last + 1, row, column);
    ContainsTransitive(DirtyRows(host, Some(m), first, last + 1), cell, u);
  }

  /** With zero margins the spanning rectangle does not depend on
      `includeSpacing` once it is present. */
  lemma CellRectWithoutMargins(host: Host, m: SpanModel, row: int, column: int)
    requires host.rowMargin == 0 && host.columnMargin == 0
    requires Present(CellRect(host, Some(m), row, column, true))
    ensures CellRect(host, Some(m), row, column, false) == CellRect(host, Some(m), row, column, true)
  {
  }

  /** As written: on a table without rows both indices clamp to -1, so
      `valueChanged` walks the one row -1 and asks for the cell rectangle of
      every column there. */
  lemma EmptyTableVisitsRowMinusOne(host: Host, spanModel: Option<SpanModel>, eventFirst: int, eventLast: int)
    requires host.rowCount == 0
    ensures ClampIndex(eventFirst, host.rowCount) == -1 && ClampIndex(eventLast, host.rowCount) == -1
    ensures DirtyRegion(host, spanModel, eventFirst, eventLast) == DirtyColumns(host, spanModel, NoRect, -1, host.columnCount)
  {
  }

  /** The repaint region with the evidently intended guard: a table without
      rows repaints nothing. */
  function GuardedDirtyRegion(host: Host, spanModel: Option<SpanModel>, eventFirst: int, eventLast: int): Rect
  {
    if host.rowCount == 0 then NoRect else DirtyRegion(host, spanModel, eventFirst, eventLast)
  }

  /** The guarded region is built from rows of the table only, and is the
      source's region whenever the table has rows. */
  lemma GuardedDirtyRegionInTable(host: Host, spanModel: Option<SpanModel>, eventFirst: int, eventLast: int)
    ensures exists lo, hi ::
              0 <= lo && hi <= host.rowCount &&
              GuardedDirtyRegion(host, spanModel, eventFirst, eventLast) == DirtyRows(host, spanModel, lo, hi)
    ensures host.rowCount > 0 ==>
      GuardedDirtyRegion(host, spanModel, eventFirst, eventLast) == DirtyRegion(host, spanModel, eventFirst, eventLast)
  {
    if host.rowCount == 0 {
      assert GuardedDirtyRegion(host, spanModel, eventFirst, eventLast) == DirtyRows(host, spanModel, 0, 0);
    } else {
      var lo := ClampIndex(eventFirst, host.rowCount);
      var hi := ClampIndex(eventLast, host.rowCount) + 1;
      assert GuardedDirtyRegion(host, spanModel, eventFirst, eventLast) == DirtyRows(host, spanModel, lo, hi);
    }
  }

  // ---------------------------------------------------------------------------
  // The table object

  class RowSpanningTable {
    /** The installed span model; None is Java's null, which only the
        no-argument constructor leaves in place. */
    var spanModel: Option<SpanModel>

    /** `RowSpanningTable()`: a plain table without a span model. */
    constructor ()
      ensures spanModel == None
    {
      spanModel := None;
    }

    /** The span-taking constructors: the non-null model is stored. */
    constructor WithModel(m: SpanModel)
      ensures spanModel == Some(m)
    {
      spanModel := Some(m);
    }

    /** `setSpanModel(m)`: a null model is rejected and nothing changes;
        otherwise it replaces the installed one. */
    method SetSpanModel(m: Option<SpanModel>) returns (ok: bool)
      modifies this
      ensures ok <==> m.Some?
      ensures spanModel == if ok then m else old(spanModel)
    {
      if m.None? {
        return false;
      }
      spanModel := m;
      ok := true;
    }

    /** `getCellRect(row, column, includeSpacing)`. */
    method GetCellRect(host: Host, row: int, column: int, includeSpacing: bool) returns (rec: Rect)
      ensures rec == CellRect(host, spanModel, row, column, includeSpacing)
    {
      if spanModel.None? {
        return host.underlying(row, column, includeSpacing);
      }
      var span := ViewRowSpan(host, spanModel.value, row, column);
      rec := NoRect;
      var r := span.minRow;
      while r <= span.maxRow
        invariant span.minRow <= r <= span.maxRow + 1
        invariant rec == UnionRows(host, column, span.minRow, r)
      {
        rec := Add(rec, host.underlying(r, column, true));
        r := r + 1;
      }
      if !includeSpacing {
        var rm := Min(host.rowMargin, rec.height);
        var cm := Min(host.columnMargin, rec.width);
        rec := Rect(rec.x + Half(cm), rec.y + Half(rm), rec.width - cm, rec.height - rm);
      }
    }

    /** `valueChanged(e)`: the clamped event indices and the region handed to
        `repaint`. */
    method ValueChanged(host: Host, eventFirst: int, eventLast: int) returns (firstIndex: int, lastIndex: int, dirtyRegion: Rect)
      ensures firstIndex == ClampIndex(eventFirst, host.rowCount)
      ensures lastIndex == ClampIndex(eventLast, host.rowCount)
      ensures dirtyRegion == DirtyRegion(host, spanModel, eventFirst, eventLast)
    {
      firstIndex := Min(host.rowCount - 1, Max(eventFirst, 0));
      lastIndex := Min(host.rowCount - 1, Max(eventLast, 0));
      dirtyRegion := NoRect;
      var row := firstIndex;
      while row <= lastIndex
        invariant firstIndex <= row && (row <= lastIndex + 1 || row == firstIndex)
        invariant dirtyRegion == DirtyRows(host, spanModel, firstIndex, row)
      {
        var col := 0;
        while col < host.columnCount
          invariant 0 <= col <= host.columnCount
          invariant dirtyRegion == DirtyColumns(host, spanModel, DirtyRows(host, spanModel, firstIndex, row), row, col)
        {
          var cell := GetCellRect(host, row, col, false);
          dirtyRegion := Add(dirtyRegion, cell);
          col := col + 1;
        }
        row := row + 1;
      }
    }
  }
}
