/** RowSpanningTableUI.java: the paint pass over the visible part of a
    RowSpanningTable. What a pass draws is recorded in the log of a Graphics. */
module SpanningTableUI {
  import opened Geometry
  import opened Spans
  import opened SpanningTable

  /** One thing a paint pass does to the screen. */
  datatype Op =
    | Fill(rect: Rect)                                          // Graphics.fillRect
    | Render(row: int, column: int, area: Rect, state: RenderState)  // the prepared renderer painted into `area`
    | PlaceEditor(row: int, column: int, area: Rect)            // the live editor laid out over `area`

  /** The drawing surface, observed through what has been done to it. */
  class Graphics {
    var log: seq<Op>

    constructor ()
      ensures log == []
    {
      log := [];
    }

    /** `fillRect(x, y, width, height)`. */
    method FillRect(x: int, y: int, width: int, height: int)
      modifies this
      ensures log == old(log) + [Fill(Rect(x, y, width, height))]
    {
      log := log + [Fill(Rect(x, y, width, height))];
    }

    /** A component painted into, or laid out over, this surface. */
    method Record(op: Op)
      modifies this
      ensures log == old(log) + [op]
    {
      log := log + [op];
    }
  }

  // ---------------------------------------------------------------------------
  // drawVLine and drawHLine

  /** The rectangle `drawVLine(g, x, y1, y2)` fills: one pixel wide, from the
      smaller to the larger of `y1` and `y2`, both included. */
  function VLineRect(x: int, y1: int, y2: int): (r: Rect)
    ensures r.x == x && r.width == 1
    ensures r.y == Min(y1, y2) && r.y + r.height - 1 == Max(y1, y2) && r.height >= 1
  {
    if y2 < y1 then Rect(x, y2, 1, y1 - y2 + 1) else Rect(x, y1, 1, y2 - y1 + 1)
  }

  /** The rectangle `drawHLine(g, x1, x2, y)` fills: one pixel high, from the
      smaller to the larger of `x1` and `x2`, both included. */
  function HLineRect(x1: int, x2: int, y: int): (r: Rect)
    ensures r.y == y && r.height == 1
    ensures r.x == Min(x1, x2) && r.x + r.width - 1 == Max(x1, x2) && r.width >= 1
  {
    if x2 < x1 then Rect(x2, y, x1 - x2 + 1, 1) else Rect(x1, y, x2 - x1 + 1, 1)
  }

  /** Neither routine cares in which order its endpoints come. */
  lemma LinesSymmetric(a: int, b: int, c: int)
    ensures VLineRect(c, a, b) == VLineRect(c, b, a)
    ensures HLineRect(a, b, c) == HLineRect(b, a, c)
  {
  }

  // ---------------------------------------------------------------------------
  // paintCell

  /** The inset `paintCell` applies: half of each margin on the leading side
      and the whole margins off the size, without any clamping. */
  function CellArea(host: Host, area: Rect): Rect
  {
    Rect(area.x + Half(host.columnMargin), area.y + Half(host.rowMargin),
         area.width - host.columnMargin, area.height - host.rowMargin)
  }

  /** Where the margins fit, painting a cell into its spacing-inclusive
      rectangle uses exactly the rectangle `getCellRect` gives without spacing. */
  lemma CellAreaMatchesCellRect(host: Host, m: SpanModel, row: int, column: int)
    requires 0 <= host.rowMargin <= CellRect(host, Some(m), row, column, true).height
    requires 0 <= host.columnMargin <= CellRect(host, Some(m), row, column, true).width
    ensures CellArea(host, CellRect(host, Some(m), row, column, true)) == CellRect(host, Some(m), row, column, false)
  {
  }

  /** What `paintCell(row, column, g, area)` does for a table whose span
      model is `spanModel`. */
  function CellPaint(host: Host, spanModel: Option<SpanModel>, row: int, column: int, area: Rect): Op
  {
    var inset := CellArea(host, area);
    if host.editing && host.editingRow == row && host.editingColumn == column then PlaceEditor(row, column, inset)
    else Render(row, column, inset, PrepareRenderer(host, spanModel, row, column))
  }

  // ---------------------------------------------------------------------------
  // paintCells

  datatype Cell = Cell(row: int, column: int)

  /** The span model answers, for every cell of the range, a span that ends at
      or below the cell's row. This is enough for `paintCells` to terminate; a
      span of row `r` that ends at `r - 1` keeps its loop on `r` forever. */
  ghost predicate ReachesRow(m: SpanModel, minRow: int, maxRow: int, minCol: int, maxCol: int)
  {
    forall r, c :: minRow <= r <= maxRow && minCol <= c <= maxCol ==> m(r, c).maxRow >= r
  }

  /** A model whose spans contain the row asked about, such as the grouping
      model, lets `paintCells` terminate over any range. */
  lemma AnchoredReachesRow(m: SpanModel, minRow: int, maxRow: int, minCol: int, maxCol: int)
    requires Anchored(m)
    ensures ReachesRow(m, minRow, maxRow, minCol, maxCol)
  {
  }

  /** The cells `paintCells` paints in `column`, starting at `row`: each
      painted cell's span is skipped. */
  function ColumnPlan(m: SpanModel, column: int, row: int, maxRow: int): (p: seq<Cell>)
    requires forall r :: row <= r <= maxRow ==> m(r, column).maxRow >= r
    ensures forall i :: 0 <= i < |p| ==> p[i].column == column && row <= p[i].row <= maxRow
    ensures row <= maxRow ==> |p| > 0 && p[0] == Cell(row, column)
    decreases if row > maxRow then 0 else maxRow - row + 1
  {
    if row > maxRow then []
    else [Cell(row, column)] + ColumnPlan(m, column, m(row, column).maxRow + 1, maxRow)
  }

  /** Each cell of `p` is on the row just below the span of the one before. */
  ghost predicate Successive(m: SpanModel, column: int, p: seq<Cell>)
  {
    forall i :: 0 <= i < |p| - 1 ==> p[i + 1].row == m(p[i].row, column).maxRow + 1
  }

  /** The rows of `p` strictly increase. */
  ghost predicate Ascending(p: seq<Cell>)
  {
    forall i, j :: 0 <= i < j < |p| ==> p[i].row < p[j].row
  }

  /** After each painted cell, painting resumes on the row just below that
      cell's span, so the painted rows strictly increase. */
  lemma {:induction false} ColumnPlanOrdered(m: SpanModel, column: int, row: int, maxRow: int)
    requires forall r :: row <= r <= maxRow ==> m(r, column).maxRow >= r
    ensures Successive(m, column, ColumnPlan(m, column, row, maxRow))
    ensures Ascending(ColumnPlan(m, column, row, maxRow))
    decreases if row > maxRow then 0 else maxRow - row + 1
  {
    if row <= maxRow {
      var next := m(row, column).maxRow + 1;
      var p := ColumnPlan(m, column, row, maxRow);
      var q := ColumnPlan(m, column, next, maxRow);
      ColumnPlanOrdered(m, column, next, maxRow);
      assert p == [Cell(row, column)] + q;
      forall i | 0 <= i < |p| - 1
        ensures p[i + 1].row == m(p[i].row, column).maxRow + 1
      {
        if i == 0 {
          assert next <= maxRow;
          assert p[1] == q[0] == Cell(next, column);
        } else {
          assert p[i + 1] == q[i] && p[i] == q[i - 1];
          assert q[i].row == m(q[i - 1].row, column).maxRow + 1;
        }
      }
      forall i, j | 0 <= i < j < |p|
        ensures p[i].row < p[j].row
      {
        assert p[j] == q[j - 1];
        if i > 0 {
          assert p[i] == q[i - 1];
          assert q[i - 1].row < q[j - 1].row;
        } else {
          assert m(row, column).maxRow >= row;
          assert q[j - 1].row >= next;
        }
      }
    }
  }

  /** One step of `paintCells`: paint `row`, then continue after its span. */
  lemma ColumnPlanStep(m: SpanModel, column: int, row: int, maxRow: int, minRow: int, done: seq<Cell>)
    requires forall r :: minRow <= r <= maxRow ==> m(r, column).maxRow >= r
    requires minRow <= row <= maxRow
    requires done + ColumnPlan(m, column, row, maxRow) == ColumnPlan(m, column, minRow, maxRow)
    ensures (done + [Cell(row, column)]) + ColumnPlan(m, column, m(row, column).maxRow + 1, maxRow) ==
      ColumnPlan(m, column, minRow, maxRow)
  {
    assert ColumnPlan(m, column, row, maxRow) == [Cell(row, column)] + ColumnPlan(m, column, m(row, column).maxRow + 1, maxRow);
  }

  /** No row strictly inside the span of a painted cell is painted again. */
  lemma NoInteriorRowPainted(m: SpanModel, column: int, row: int, maxRow: int, i: int, j: int)
    requires forall r :: row <= r <= maxRow ==> m(r, column).maxRow >= r
    requires 0 <= i < |ColumnPlan(m, column, row, maxRow)| && 0 <= j < |ColumnPlan(m, column, row, maxRow)|
    ensures var p := ColumnPlan(m, column, row, maxRow);
      !(p[i].row < p[j].row <= m(p[i].row, column).maxRow)
  {
    var p := ColumnPlan(m, column, row, maxRow);
    ColumnPlanOrdered(m, column, row, maxRow);
    if i < j && i + 1 < j {
      assert p[i + 1].row < p[j].row;
    }
  }

  /** All cells `paintCells` paints, column after column from `minCol` up to
      `colHi - 1`. */
  function Plan(m: SpanModel, minRow: int, maxRow: int, minCol: int, colHi: int): (p: seq<Cell>)
    requires ReachesRow(m, minRow, maxRow, minCol, colHi - 1)
    ensures forall i :: 0 <= i < |p| ==> minRow <= p[i].row <= maxRow && minCol <= p[i].column < colHi
    decreases colHi - minCol
  {
    if colHi <= minCol then []
    else Plan(m, minRow, maxRow, minCol, colHi - 1) + ColumnPlan(m, colHi - 1, minRow, maxRow)
  }

  /** Every column of the range is visited, starting at its first row. */
  lemma {:induction false} EveryColumnVisited(m: SpanModel, minRow: int, maxRow: int, minCol: int, colHi: int, c: int)
    requires ReachesRow(m, minRow, maxRow, minCol, colHi - 1)
    requires minRow <= maxRow && minCol <= c < colHi
    ensures Cell(minRow, c) in Plan(m, minRow, maxRow, minCol, colHi)
    decreases colHi - minCol
  {
    if c < colHi - 1 {
      EveryColumnVisited(m, minRow, maxRow, minCol, colHi - 1, c);
    } else {
      assert ColumnPlan(m, c, minRow, maxRow)[0] == Cell(minRow, c);
    }
  }

  /** What painting `cell` in a pass does: `paintCell` with the spacing-inclusive
      `getCellRect` of the cell. */
  function CellOp(host: Host, spanModel: Option<SpanModel>, cell: Cell): Op
  {
    CellPaint(host, spanModel, cell.row, cell.column, CellRect(host, spanModel, cell.row, cell.column, true))
  }

  /** What painting the cells of `plan`, in order, does. */
  function CellOps(host: Host, spanModel: Option<SpanModel>, plan: seq<Cell>): (ops: seq<Op>)
    ensures |ops| == |plan|
  {
    seq(|plan|, i requires 0 <= i < |plan| => CellOp(host, spanModel, plan[i]))
  }

  lemma CellOpsAppend(host: Host, spanModel: Option<SpanModel>, a: seq<Cell>, b: seq<Cell>)
    ensures CellOps(host, spanModel, a + b) == CellOps(host, spanModel, a) + CellOps(host, spanModel, b)
  {
    var whole := CellOps(host, spanModel, a + b);
    var parts := CellOps(host, spanModel, a) + CellOps(host, spanModel, b);
    forall i | 0 <= i < |whole|
      ensures whole[i] == parts[i]
    {
      if i >= |a| {
        assert (a + b)[i] == b[i - |a|];
      }
    }
  }

  /** Painting one more cell, into its spacing-inclusive rectangle, extends
      what has been painted after `log` by that cell's operation. */
  lemma LogCell(log: seq<Op>, host: Host, spanModel: Option<SpanModel>, done: seq<Cell>, cell: Cell, area: Rect)
    requires area == CellRect(host, spanModel, cell.row, cell.column, true)
    ensures log + CellOps(host, spanModel, done + [cell]) ==
      (log + CellOps(host, spanModel, done)) + [CellPaint(host, spanModel, cell.row, cell.column, area)]
  {
    CellOpsAppend(host, spanModel, done, [cell]);
    assert CellOps(host, spanModel, [cell])[0] == CellOp(host, spanModel, cell);
  }

  /** Painting a column after the earlier ones extends what has been painted. */
  lemma LogColumn(log: seq<Op>, host: Host, spanModel: Option<SpanModel>, before: seq<Cell>, column: seq<Cell>)
    ensures log + CellOps(host, spanModel, before + column) ==
      (log + CellOps(host, spanModel, before)) + CellOps(host, spanModel, column)
  {
    CellOpsAppend(host, spanModel, before, column);
  }

  // ---------------------------------------------------------------------------
  // paintGrid

  /** The segment `paintGrid` draws for `(row, column)`: the column's width,
      starting after the widths of the columns `cMin .. column - 1`, one pixel
      above the damaged area's top plus the heights of the rows `rMin .. row`. */
  function HLineAt(host: Host, damaged: Rect, rMin: int, cMin: int, row: int, column: int): Rect
  {
    var x := damaged.x + ColumnWidths(host, cMin, column);
    HLineRect(x, x + host.columnWidth(column) - 1, damaged.y + RowHeights(host, rMin, row + 1) - 1)
  }

  /** The horizontal segments of one row, over the columns `cMin .. hi - 1`:
      only for a column whose span ends at this row. */
  function RowLines(host: Host, m: SpanModel, damaged: Rect, rMin: int, row: int, cMin: int, hi: int): seq<Op>
    decreases hi - cMin
  {
    if hi <= cMin then []
    else
      var line := if m(row, hi - 1).maxRow <= row then [Fill(HLineAt(host, damaged, rMin, cMin, row, hi - 1))] else [];
      RowLines(host, m, damaged, rMin, row, cMin, hi - 1) + line
  }

  /** The horizontal segments of the rows `rMin .. hi - 1`. */
  function HLines(host: Host, m: SpanModel, damaged: Rect, rMin: int, hi: int, cMin: int, cMax: int): seq<Op>
    decreases hi - rMin
  {
    if hi <= rMin then []
    else HLines(host, m, damaged, rMin, hi - 1, cMin, cMax) + RowLines(host, m, damaged, rMin, hi - 1, cMin, cMax + 1)
  }

  /** Every cell of the range whose span ends at its row gets its segment ... */
  lemma {:induction false} HLinesComplete(host: Host, m: SpanModel, damaged: Rect, rMin: int, hi: int, cMin: int, cMax: int, row: int, column: int)
    requires rMin <= row < hi && cMin <= column <= cMax
    requires m(row, column).maxRow <= row
    ensures Fill(HLineAt(host, damaged, rMin, cMin, row, column)) in HLines(host, m, damaged, rMin, hi, cMin, cMax)
    decreases hi - rMin
  {
    if row < hi - 1 {
      HLinesComplete(host, m, damaged, rMin, hi - 1, cMin, cMax, row, column);
    } else {
      RowLinesComplete(host, m, damaged, rMin, row, cMin, cMax + 1, column);
    }
  }

  lemma {:induction false} RowLinesComplete(host: Host, m: SpanModel, damaged: Rect, rMin: int, row: int, cMin: int, hi: int, column: int)
    requires cMin <= column < hi && m(row, column).maxRow <= row
    ensures Fill(HLineAt(host, damaged, rMin, cMin, row, column)) in RowLines(host, m, damaged, rMin, row, cMin, hi)
    decreases hi - cMin
  {
    if column < hi - 1 {
      RowLinesComplete(host, m, damaged, rMin, row, cMin, hi - 1, column);
    }
  }

  /** ... and nothing else: each segment is that of a cell of the range whose
      span ends at its row. */
  lemma {:induction false} HLinesSound(host: Host, m: SpanModel, damaged: Rect, rMin: int, hi: int, cMin: int, cMax: int, op: Op)
    requires op in HLines(host, m, damaged, rMin, hi, cMin, cMax)
    ensures exists row, column ::
              rMin <= row < hi && cMin <= column <= cMax && m(row, column).maxRow <= row &&
              op == Fill(HLineAt(host, damaged, rMin, cMin, row, column))
    decreases hi - rMin
  {
    if op in HLines(host, m, damaged, rMin, hi - 1, cMin, cMax) {
      HLinesSound(host, m, damaged, rMin, hi - 1, cMin, cMax, op);
    } else {
      RowLinesSound(host, m, damaged, rMin, hi - 1, cMin, cMax + 1, op);
    }
  }

  lemma {:induction false} RowLinesSound(host: Host, m: SpanModel, damaged: Rect, rMin: int, row: int, cMin: int, hi: int, op: Op)
    requires op in RowLines(host, m, damaged, rMin, row, cMin, hi)
    ensures exists column ::
              cMin <= column < hi && m(row, column).maxRow <= row &&
              op == Fill(HLineAt(host, damaged, rMin, cMin, row, column))
    decreases hi - cMin
  {
    if op in RowLines(host, m, damaged, rMin, row, cMin, hi - 1) {
      RowLinesSound(host, m, damaged, rMin, row, cMin, hi - 1, op);
    }
  }

  /** Left to right: after each of the columns `cMin .. hi - 1` a vertical line
      at the accumulated width, from the top down to `tableHeight - 1`. */
  function VLinesLtr(host: Host, x0: int, tableHeight: int, cMin: int, hi: int): (ops: seq<Op>)
    ensures |ops| == if hi <= cMin then 0 else hi - cMin
    ensures forall k :: 0 <= k < |ops| ==>
      ops[k] == Fill(VLineRect(x0 + ColumnWidths(host, cMin, cMin + k + 1) - 1, 0, tableHeight - 1))
    decreases hi - cMin
  {
    if hi <= cMin then []
    else
      var line := Fill(VLineRect(x0 + ColumnWidths(host, cMin, hi) - 1, 0, tableHeight - 1));
      VLinesLtr(host, x0, tableHeight, cMin, hi - 1) + [line]
  }

  /** Right to left: the columns are taken from `cMax` down to `lo`, so the
      `k`-th line sits after the widths of the columns `cMax - k .. cMax`. */
  function VLinesRtl(host: Host, x0: int, tableHeight: int, lo: int, cMax: int): (ops: seq<Op>)
    ensures |ops| == if cMax < lo then 0 else cMax - lo + 1
    ensures forall k :: 0 <= k < |ops| ==>
      ops[k] == Fill(VLineRect(x0 + ColumnWidths(host, cMax - k, cMax + 1) - 1, 0, tableHeight - 1))
    decreases cMax - lo + 1
  {
    if cMax < lo then []
    else
      var line := Fill(VLineRect(x0 + ColumnWidths(host, lo, cMax + 1) - 1, 0, tableHeight - 1));
      VLinesRtl(host, x0, tableHeight, lo + 1, cMax) + [line]
  }

  /** Widths of consecutive column ranges add up, taken from the front. */
  lemma {:induction false} ColumnWidthsFront(host: Host, lo: int, hi: int)
    requires lo < hi
    ensures ColumnWidths(host, lo, hi) == host.columnWidth(lo) + ColumnWidths(host, lo + 1, hi)
    decreases hi - lo
  {
    if lo + 1 < hi {
      ColumnWidthsFront(host, lo, hi - 1);
    }
  }

  /** One column of `paintGrid`'s inner loop: a segment is appended exactly
      when the cell's span ends at this row. */
  lemma LogRowLine(log: seq<Op>, host: Host, m: SpanModel, damaged: Rect, rMin: int, row: int, cMin: int, col: int, x: int, y: int)
    requires cMin <= col && rMin <= row
    requires x == damaged.x + ColumnWidths(host, cMin, col)
    requires y == damaged.y + RowHeights(host, rMin, row + 1)
    ensures log + RowLines(host, m, damaged, rMin, row, cMin, col + 1) ==
      (log + RowLines(host, m, damaged, rMin, row, cMin, col)) +
      (if m(row, col).maxRow <= row then [Fill(HLineRect(x, x + host.columnWidth(col) - 1, y - 1))] else [])
  {
  }

  /** One row of `paintGrid`'s outer loop. */
  lemma LogRow(log: seq<Op>, host: Host, m: SpanModel, damaged: Rect, rMin: int, row: int, cMin: int, cMax: int)
    requires rMin <= row
    ensures log + HLines(host, m, damaged, rMin, row + 1, cMin, cMax) ==
      (log + HLines(host, m, damaged, rMin, row, cMin, cMax)) + RowLines(host, m, damaged, rMin, row, cMin, cMax + 1)
  {
  }

  /** One column of the left-to-right vertical lines. */
  lemma LogVLineLtr(log: seq<Op>, host: Host, x0: int, tableHeight: int, cMin: int, column: int, x: int)
    requires cMin <= column
    requires x == x0 + ColumnWidths(host, cMin, column + 1)
    ensures log + VLinesLtr(host, x0, tableHeight, cMin, column + 1) ==
      (log + VLinesLtr(host, x0, tableHeight, cMin, column)) + [Fill(VLineRect(x - 1, 0, tableHeight - 1))]
  {
  }

  /** One column of the right-to-left vertical lines. */
  lemma LogVLineRtl(log: seq<Op>, host: Host, x0: int, tableHeight: int, column: int, cMax: int, x: int)
    requires column <= cMax
    requires x == x0 + ColumnWidths(host, column, cMax + 1)
    ensures log + VLinesRtl(host, x0, tableHeight, column, cMax) ==
      (log + VLinesRtl(host, x0, tableHeight, column + 1, cMax)) + [Fill(VLineRect(x - 1, 0, tableHeight - 1))]
  {
  }

  lemma AppendAssociative<T>(a: seq<T>, b: seq<T>, c: seq<T>)
    ensures (a + b) + c == a + (b + c)
  {
  }

  /** The rectangle the grid is measured from: `minCell.union(maxCell)` of the
      spanning cell rectangles of the two corner cells. */
  function DamagedArea(host: Host, m: SpanModel, rMin: int, rMax: int, cMin: int, cMax: int): Rect
  {
    Add(CellRect(host, Some(m), rMin, cMin, true), CellRect(host, Some(m), rMax, cMax, true))
  }

  /** Everything `paintGrid` draws, measured from `damaged`. */
  function GridOps(host: Host, m: SpanModel, damaged: Rect, rMin: int, rMax: int, cMin: int, cMax: int): seq<Op>
  {
    var tableHeight := damaged.y + damaged.height;
    (if host.showHorizontalLines then HLines(host, m, damaged, rMin, rMax + 1, cMin, cMax) else []) +
    (if !host.showVerticalLines then []
     else if host.leftToRight then VLinesLtr(host, damaged.x, tableHeight, cMin, cMax + 1)
     else VLinesRtl(host, damaged.x, tableHeight, cMin, cMax))
  }

  // ---------------------------------------------------------------------------
  // Where paintGrid's horizontal segments land

  /** The damaged area starts at the left edge of the column range: the
      edge of `cMin` left to right, of `cMax` right to left. */
  lemma DamagedAreaLeftEdge(host: Host, m: SpanModel, rMin: int, rMax: int, cMin: int, cMax: int)
    requires TableLayout(host) && SpansShown(host, m)
    requires 0 <= rMin < host.rowCount && 0 <= rMax < host.rowCount
    requires 0 <= cMin <= cMax < host.columnCount
    ensures DamagedArea(host, m, rMin, rMax, cMin, cMax).x == ColumnX(host, if host.leftToRight then cMin else cMax)
  {
    assert ColumnLayout(host, cMin, ColumnX(host, cMin), host.columnWidth(cMin));
    assert ColumnLayout(host, cMax, ColumnX(host, cMax), host.columnWidth(cMax));
    CellRectOfSpan(host, m, rMin, cMin, ColumnX(host, cMin), host.columnWidth(cMin));
    CellRectOfSpan(host, m, rMax, cMax, ColumnX(host, cMax), host.columnWidth(cMax));
    var s1 := ViewRowSpan(host, m, rMin, cMin);
    var s2 := ViewRowSpan(host, m, rMax, cMax);
    RowHeightsMonotone(host, s1.minRow, s1.minRow, s1.maxRow + 1);
    RowHeightsMonotone(host, s2.minRow, s2.minRow, s2.maxRow + 1);
    if host.leftToRight {
      ColumnWidthsSplit(host, 0, cMin, cMax);
      ColumnWidthsNonNegative(host, cMin, cMax);
    } else {
      ColumnWidthsSplit(host, cMin + 1, cMax + 1, host.columnCount);
      ColumnWidthsNonNegative(host, cMin + 1, cMax + 1);
    }
  }

  /** The segment for `(row, column)` measured as the grid evidently
      intends: down from the top of row `rMin` itself, and across from the
      damaged area's left edge over the columns that lie left of `column` in
      the table's orientation. */
  function HLineUnder(host: Host, damaged: Rect, rMin: int, cMin: int, cMax: int, row: int, column: int): Rect
  {
    var x := if host.leftToRight then damaged.x + ColumnWidths(host, cMin, column)
             else damaged.x + ColumnWidths(host, column + 1, cMax + 1);
    var y := host.underlying(rMin, cMin, true).y + RowHeights(host, rMin, row + 1);
    HLineRect(x, x + host.columnWidth(column) - 1, y - 1)
  }

  /** In a laid-out table the corrected segment runs along the bottom pixel
      row of the cell's own rectangle, across exactly its width, in either
      orientation and whatever the spans of the corner cells. */
  lemma HLineUnderCell(host: Host, m: SpanModel, rMin: int, rMax: int, cMin: int, cMax: int, row: int, column: int)
    requires TableLayout(host) && SpansShown(host, m)
    requires 0 <= rMin <= row <= rMax < host.rowCount
    requires 0 <= cMin <= column <= cMax < host.columnCount
    ensures var u := host.underlying(row, column, true);
      HLineUnder(host, DamagedArea(host, m, rMin, rMax, cMin, cMax), rMin, cMin, cMax, row, column) ==
        HLineRect(u.x, u.x + u.width - 1, u.y + u.height - 1)
  {
    DamagedAreaLeftEdge(host, m, rMin, rMax, cMin, cMax);
    HLineUnderEdge(host, DamagedArea(host, m, rMin, rMax, cMin, cMax), rMin, cMin, cMax, row, column);
  }

  /** The same, for any damaged area whose left edge is that of the range. */
  lemma HLineUnderEdge(host: Host, damaged: Rect, rMin: int, cMin: int, cMax: int, row: int, column: int)
    requires TableLayout(host)
    requires 0 <= rMin <= row < host.rowCount
    requires 0 <= cMin <= column <= cMax < host.columnCount
    requires damaged.x == ColumnX(host, if host.leftToRight then cMin else cMax)
    ensures var u := host.underlying(row, column, true);
      HLineUnder(host, damaged, rMin, cMin, cMax, row, column) == HLineRect(u.x, u.x + u.width - 1, u.y + u.height - 1)
  {
    assert ColumnLayout(host, cMin, ColumnX(host, cMin), host.columnWidth(cMin));
    assert ColumnLayout(host, column, ColumnX(host, column), host.columnWidth(column));
    RowHeightsSplit(host, 0, rMin, row + 1);
    if host.leftToRight {
      ColumnWidthsSplit(host, 0, cMin, column);
    } else {
      ColumnWidthsSplit(host, column + 1, cMax + 1, host.columnCount);
    }
  }

  /** As written: a laid-out, unsorted column of three rows ten pixels high
      holds one cell spanning all three, and the paint range starts at row 1,
      inside it. The damaged area starts at the top of row 0, so the one
      segment drawn, for row 2, lands on pixel row 19, inside the span, and
      the span's bottom, pixel row 29, gets no line. The corrected segment is
      at 29. */
  lemma HLineRaisedInsideSpan(host: Host, m: SpanModel)
    requires TableLayout(host) && host.leftToRight
    requires host.rowCount == 3 && host.columnCount == 1 && host.columnWidth(0) == 10
    requires host.rowHeight(0) == 10 && host.rowHeight(1) == 10 && host.rowHeight(2) == 10
    requires host.rowToView(0) == 0 && host.rowToView(1) == 1 && host.rowToView(2) == 2
    requires host.rowToModel(1) == 1 && host.rowToModel(2) == 2 && host.columnToModel(0) == 0
    requires m(1, 0) == RowSpan(0, 2) && m(2, 0) == RowSpan(0, 2)
    ensures var damaged := DamagedArea(host, m, 1, 2, 0, 0);
      damaged == Rect(0, 0, 10, 30) &&
      HLines(host, m, damaged, 1, 3, 0, 0) == [Fill(Rect(0, 19, 10, 1))] &&
      HLineUnder(host, damaged, 1, 0, 0, 2, 0) == Rect(0, 29, 10, 1)
  {
    TallCellViewSpan(host, m);
    assert ColumnLayout(host, 0, ColumnX(host, 0), host.columnWidth(0));
    assert ShownInTable(host, RowSpan(0, 2));
    CellRectOfSpan(host, m, 1, 0, 0, 10);
    CellRectOfSpan(host, m, 2, 0, 0, 10);
    assert RowHeights(host, 0, 3) == 30;
    TallCellLines(host, m, Rect(0, 0, 10, 30));
  }

  /** Seen from rows 1 and 2, the tall cell covers the view rows 0 .. 2. */
  lemma TallCellViewSpan(host: Host, m: SpanModel)
    requires host.rowToView(0) == 0 && host.rowToView(1) == 1 && host.rowToView(2) == 2
    requires host.rowToModel(1) == 1 && host.rowToModel(2) == 2 && host.columnToModel(0) == 0
    requires m(1, 0) == RowSpan(0, 2) && m(2, 0) == RowSpan(0, 2)
    ensures ViewRowSpan(host, m, 1, 0) == RowSpan(0, 2)
    ensures ViewRowSpan(host, m, 2, 0) == RowSpan(0, 2)
  {
    var list := ViewRows(host, RowSpan(0, 2));
    assert RowSpan(0, 2).Rows() == [0, 1, 2];
    assert [0, 1, 2][1..] == [1, 2] && [1, 2][1..] == [2] && [2][1..] == [];
    assert VisibleRows(host, [2]) == [2];
    assert VisibleRows(host, [1, 2]) == [1, 2];
    assert list == [0, 1, 2];
    assert CountBelow(list, 0) == 1;
    assert CountAbove(list, 2) == 1;
    assert CountBelow(list, 1) == 2;
    assert CountAbove(list, 3) == 0;
  }

  /** The rows 1 and 2 of the tall cell, measured from the whole column. */
  lemma TallCellLines(host: Host, m: SpanModel, damaged: Rect)
    requires TableLayout(host) && host.rowCount == 3 && host.columnCount == 1 && host.columnWidth(0) == 10
    requires host.rowHeight(0) == 10 && host.rowHeight(1) == 10 && host.rowHeight(2) == 10
    requires m(1, 0) == RowSpan(0, 2) && m(2, 0) == RowSpan(0, 2)
    requires damaged == Rect(0, 0, 10, 30)
    ensures HLines(host, m, damaged, 1, 3, 0, 0) == [Fill(Rect(0, 19, 10, 1))]
    ensures HLineUnder(host, damaged, 1, 0, 0, 2, 0) == Rect(0, 29, 10, 1)
  {
    assert ColumnLayout(host, 0, ColumnX(host, 0), host.columnWidth(0));
    assert host.underlying(1, 0, true).y == 10;
    assert RowHeights(host, 1, 3) == 20;
    assert HLineAt(host, damaged, 1, 0, 2, 0) == Rect(0, 19, 10, 1);
    assert RowLines(host, m, damaged, 1, 1, 0, 1) == [];
    assert RowLines(host, m, damaged, 1, 2, 0, 1) == [Fill(Rect(0, 19, 10, 1))];
  }

  /** As written, right to left: a laid-out, unsorted table of two rows ten
      pixels high, column 0 ten pixels wide at the right edge (x 30 .. 39)
      and spanning both rows, column 1 thirty pixels wide at the left
      (x 0 .. 29) with one-row cells. Painting row 0, the only segment is
      column 1's, but it is laid out from the damaged area's left edge after
      column 0's width, at x 10 .. 39: it cuts through column 0's spanning
      cell and misses x 0 .. 9 of column 1. The corrected segment covers
      column 1 exactly. */
  lemma HLineMirroredRtl(host: Host, m: SpanModel)
    requires TableLayout(host) && !host.leftToRight
    requires host.rowCount == 2 && host.columnCount == 2
    requires host.columnWidth(0) == 10 && host.columnWidth(1) == 30
    requires host.rowHeight(0) == 10 && host.rowHeight(1) == 10
    requires host.rowToView(0) == 0 && host.rowToView(1) == 1
    requires host.rowToModel(0) == 0 && host.columnToModel(0) == 0 && host.columnToModel(1) == 1
    requires m(0, 0) == RowSpan(0, 1) && m(0, 1) == RowSpan(0, 0)
    ensures var damaged := DamagedArea(host, m, 0, 0, 0, 1);
      damaged == Rect(0, 0, 40, 20) &&
      CellRect(host, Some(m), 0, 0, true) == Rect(30, 0, 10, 20) &&
      host.underlying(0, 1, true) == Rect(0, 0, 30, 10) &&
      HLines(host, m, damaged, 0, 1, 0, 1) == [Fill(Rect(10, 9, 30, 1))] &&
      HLineUnder(host, damaged, 0, 0, 1, 0, 1) == Rect(0, 9, 30, 1)
  {
    RtlViewSpans(host, m);
    assert ColumnLayout(host, 0, ColumnX(host, 0), host.columnWidth(0));
    assert ColumnLayout(host, 1, ColumnX(host, 1), host.columnWidth(1));
    assert ColumnX(host, 0) == 30 && ColumnX(host, 1) == 0;
    assert ShownInTable(host, RowSpan(0, 1));
    CellRectOfSpan(host, m, 0, 0, 30, 10);
    CellRectOfSpan(host, m, 0, 1, 0, 30);
    assert RowHeights(host, 0, 2) == 20;
    RtlLines(host, m, Rect(0, 0, 40, 20));
  }

  /** Seen from row 0, column 0 covers the view rows 0 .. 1 and column 1 only row 0. */
  lemma RtlViewSpans(host: Host, m: SpanModel)
    requires host.rowToView(0) == 0 && host.rowToView(1) == 1
    requires host.rowToModel(0) == 0 && host.columnToModel(0) == 0 && host.columnToModel(1) == 1
    requires m(0, 0) == RowSpan(0, 1) && m(0, 1) == RowSpan(0, 0)
    ensures ViewRowSpan(host, m, 0, 0) == RowSpan(0, 1)
    ensures ViewRowSpan(host, m, 0, 1) == RowSpan(0, 0)
  {
    var list0 := ViewRows(host, RowSpan(0, 1));
    assert RowSpan(0, 1).Rows() == [0, 1];
    assert [0, 1][1..] == [1] && [1][1..] == [];
    assert VisibleRows(host, [1]) == [1];
    assert list0 == [0, 1];
    assert CountBelow(list0, -1) == 0;
    assert CountAbove(list0, 1) == 1;
    var list1 := ViewRows(host, RowSpan(0, 0));
    assert RowSpan(0, 0).Rows() == [0];
    assert [0][1..] == [];
    assert list1 == [0];
    assert CountBelow(list1, -1) == 0;
    assert CountAbove(list1, 1) == 0;
  }

  /** Row 0 of the right-to-left table, measured from both columns together. */
  lemma RtlLines(host: Host, m: SpanModel, damaged: Rect)
    requires TableLayout(host) && !host.leftToRight && host.rowCount == 2 && host.columnCount == 2
    requires host.columnWidth(0) == 10 && host.columnWidth(1) == 30 && host.rowHeight(0) == 10
    requires m(0, 0) == RowSpan(0, 1) && m(0, 1) == RowSpan(0, 0)
    requires damaged == Rect(0, 0, 40, 20)
    ensures HLines(host, m, damaged, 0, 1, 0, 1) == [Fill(Rect(10, 9, 30, 1))]
    ensures HLineUnder(host, damaged, 0, 0, 1, 0, 1) == Rect(0, 9, 30, 1)
  {
    assert ColumnLayout(host, 0, ColumnX(host, 0), host.columnWidth(0));
    assert host.underlying(0, 0, true).y == 0;
    assert HLineAt(host, damaged, 0, 0, 0, 1) == Rect(10, 9, 30, 1);
    assert RowLines(host, m, damaged, 0, 0, 0, 1) == [];
    assert RowLines(host, m, damaged, 0, 0, 0, 2) == [Fill(Rect(10, 9, 30, 1))];
  }

  // ---------------------------------------------------------------------------
  // paint

  /** The row and column range a paint pass covers. */
  datatype IndexRange = IndexRange(minRow: int, maxRow: int, minCol: int, maxCol: int)

  /** The toolkit's hit testing answers -1 or an index of the table. */
  ghost predicate HitTesting(host: Host)
  {
    forall p :: -1 <= host.rowAtPoint(p) < host.rowCount && -1 <= host.columnAtPoint(p) < host.columnCount
  }

  function UpperLeft(r: Rect): Point
  {
    Point(r.x, r.y)
  }

  function LowerRight(r: Rect): Point
  {
    Point(r.x + r.width - 1, r.y + r.height - 1)
  }

  /** The range `paint` computes for the clip `clip` of a table of size
      `width` by `height`, or None where it returns without drawing.
      `fitWidth` is the "Table.printMode" client property being FIT_WIDTH. */
  function VisibleRange(host: Host, clip: Rect, width: int, height: int, fitWidth: bool): (o: Option<IndexRange>)
    ensures o.None? <==> host.rowCount == 0 || host.columnCount == 0 || !Intersects(Rect(0, 0, width, height), clip)
    ensures o.Some? ==>
      var vb := Intersection(clip, Rect(0, 0, width, height));
      (host.rowAtPoint(UpperLeft(vb)) == -1 ==> o.value.minRow == 0) &&
      (host.rowAtPoint(UpperLeft(vb)) != -1 ==> o.value.minRow == host.rowAtPoint(UpperLeft(vb))) &&
      (host.rowAtPoint(LowerRight(vb)) == -1 ==> o.value.maxRow == host.rowCount - 1) &&
      (host.rowAtPoint(LowerRight(vb)) != -1 ==> o.value.maxRow == host.rowAtPoint(LowerRight(vb)))
    ensures o.Some? ==>
      var cb := if fitWidth then clip else Intersection(clip, Rect(0, 0, width, height));
      var first := if host.leftToRight then UpperLeft(cb) else LowerRight(cb);
      var last := if host.leftToRight then LowerRight(cb) else UpperLeft(cb);
      (host.columnAtPoint(first) == -1 ==> o.value.minCol == 0) &&
      (host.columnAtPoint(first) != -1 ==> o.value.minCol == host.columnAtPoint(first)) &&
      (host.columnAtPoint(last) == -1 ==> o.value.maxCol == host.columnCount - 1) &&
      (host.columnAtPoint(last) != -1 ==> o.value.maxCol == host.columnAtPoint(last))
  {
    var bounds := Rect(0, 0, width, height);
    if host.rowCount == 0 || host.columnCount == 0 || !Intersects(bounds, clip) then None
    else
      var vb := Intersection(clip, bounds);
      var minRow := host.rowAtPoint(UpperLeft(vb));
      var maxRow := host.rowAtPoint(LowerRight(vb));
      var cb := if fitWidth then clip else vb;
      var minCol := host.columnAtPoint(if host.leftToRight then UpperLeft(cb) else LowerRight(cb));
      var maxCol := host.columnAtPoint(if host.leftToRight then LowerRight(cb) else UpperLeft(cb));
      Some(IndexRange(if minRow == -1 then 0 else minRow,
                      if maxRow == -1 then host.rowCount - 1 else maxRow,
                      if minCol == -1 then 0 else minCol,
                      if maxCol == -1 then host.columnCount - 1 else maxCol))
  }

  /** With hit testing that answers -1 or an index of the table, every index
      of a computed range lies inside the table. */
  lemma VisibleRangeInTable(host: Host, clip: Rect, width: int, height: int, fitWidth: bool)
    requires HitTesting(host) && VisibleRange(host, clip, width, height, fitWidth).Some?
    ensures var rg := VisibleRange(host, clip, width, height, fitWidth).value;
      0 <= rg.minRow < host.rowCount && 0 <= rg.maxRow < host.rowCount &&
      0 <= rg.minCol < host.columnCount && 0 <= rg.maxCol < host.columnCount
  {
    var vb := Intersection(clip, Rect(0, 0, width, height));
    var cb := if fitWidth then clip else vb;
    assert -1 <= host.rowAtPoint(UpperLeft(vb)) < host.rowCount;
    assert -1 <= host.rowAtPoint(LowerRight(vb)) < host.rowCount;
    assert -1 <= host.columnAtPoint(UpperLeft(cb)) < host.columnCount;
    assert -1 <= host.columnAtPoint(LowerRight(cb)) < host.columnCount;
  }

  /** Everything a paint pass draws: the grid, then the cells. */
  function PaintOps(host: Host, m: SpanModel, clip: Rect, width: int, height: int, fitWidth: bool): seq<Op>
    requires HitTesting(host) && ReachesRow(m, 0, host.rowCount - 1, 0, host.columnCount - 1)
  {
    match VisibleRange(host, clip, width, height, fitWidth)
    case None => []
    case Some(rg) =>
      VisibleRangeInTable(host, clip, width, height, fitWidth);
      GridOps(host, m, DamagedArea(host, m, rg.minRow, rg.maxRow, rg.minCol, rg.maxCol),
              rg.minRow, rg.maxRow, rg.minCol, rg.maxCol) +
      CellOps(host, Some(m), Plan(m, rg.minRow, rg.maxRow, rg.minCol, rg.maxCol + 1))
  }

  /** A range `paint` computes lies inside the table, so the spans of its cells
      reach their rows, and the pass draws that range's grid and cells. */
  lemma PaintOpsOfRange(host: Host, m: SpanModel, clip: Rect, width: int, height: int, fitWidth: bool, rg: IndexRange)
    requires HitTesting(host) && ReachesRow(m, 0, host.rowCount - 1, 0, host.columnCount - 1)
    requires VisibleRange(host, clip, width, height, fitWidth) == Some(rg)
    ensures ReachesRow(m, rg.minRow, rg.maxRow, rg.minCol, rg.maxCol)
    ensures PaintOps(host, m, clip, width, height, fitWidth) ==
      GridOps(host, m, DamagedArea(host, m, rg.minRow, rg.maxRow, rg.minCol, rg.maxCol),
              rg.minRow, rg.maxRow, rg.minCol, rg.maxCol) +
      CellOps(host, Some(m), Plan(m, rg.minRow, rg.maxRow, rg.minCol, rg.maxCol + 1))
  {
    VisibleRangeInTable(host, clip, width, height, fitWidth);
  }

  // ---------------------------------------------------------------------------
  // The UI delegate

  class RowSpanningTableUI {
    /** The table this delegate is installed on. */
    const table: RowSpanningTable

    constructor (table: RowSpanningTable)
      ensures this.table == table
    {
      this.table := table;
    }

    /** `paint(g, c)`: the grid lines and then the cells of the visible range. */
    method Paint(g: Graphics, host: Host, clip: Rect, width: int, height: int, fitWidth: bool)
      requires table.spanModel.Some?
      requires HitTesting(host) && ReachesRow(table.spanModel.value, 0, host.rowCount - 1, 0, host.columnCount - 1)
      modifies g
      ensures g.log == old(g.log) + PaintOps(host, table.spanModel.value, clip, width, height, fitWidth)
    {
      var range := ComputeVisibleRange(host, clip, width, height, fitWidth);
      if range.None? {
        return;
      }
      var rg := range.value;
      PaintOpsOfRange(host, table.spanModel.value, clip, width, height, fitWidth, rg);
      PaintRange(g, host, rg.minRow, rg.maxRow, rg.minCol, rg.maxCol);
    }

    /** The first half of `paint`: the early return, then the row and column
        range from the clip, each -1 from the hit test replaced by the first
        or the last index. */
    static method ComputeVisibleRange(host: Host, clip: Rect, width: int, height: int, fitWidth: bool)
      returns (range: Option<IndexRange>)
      ensures range == VisibleRange(host, clip, width, height, fitWidth)
    {
      var bounds := Rect(0, 0, width, height);
      if host.rowCount <= 0 || host.columnCount <= 0 || !Intersects(bounds, clip) {
        return None;
      }
      var visibleBounds := Intersection(clip, bounds);
      var upperLeft := Point(visibleBounds.x, visibleBounds.y);
      var lowerRight := Point(visibleBounds.x + visibleBounds.width - 1, visibleBounds.y + visibleBounds.height - 1);

      var minRow := host.rowAtPoint(upperLeft);
      var maxRow := host.rowAtPoint(lowerRight);
      if minRow == -1 {
        minRow := 0;
      }
      if maxRow == -1 {
        maxRow := host.rowCount - 1;
      }

      if fitWidth {
        upperLeft := Point(clip.x, clip.y);
        lowerRight := Point(clip.x + clip.width - 1, clip.y + clip.height - 1);
      }
      var ltr := host.leftToRight;
      var minCol := host.columnAtPoint(if ltr then upperLeft else lowerRight);
      var maxCol := host.columnAtPoint(if ltr then lowerRight else upperLeft);
      if minCol == -1 {
        minCol := 0;
      }
      if maxCol == -1 {
        maxCol := host.columnCount - 1;
      }
      range := Some(IndexRange(minRow, maxRow, minCol, maxCol));
    }

    /** The drawing half of `paint`: the grid of the range, then its cells. */
    method PaintRange(g: Graphics, host: Host, minRow: int, maxRow: int, minCol: int, maxCol: int)
      requires table.spanModel.Some?
      requires ReachesRow(table.spanModel.value, minRow, maxRow, minCol, maxCol)
      modifies g
      ensures var m := table.spanModel.value;
        g.log == old(g.log) +
          (GridOps(host, m, DamagedArea(host, m, minRow, maxRow, minCol, maxCol), minRow, maxRow, minCol, maxCol) +
           CellOps(host, Some(m), Plan(m, minRow, maxRow, minCol, maxCol + 1)))
    {
      ghost var m := table.spanModel.value;
      PaintGrid(g, host, minRow, maxRow, minCol, maxCol);
      PaintCells(g, host, minRow, maxRow, minCol, maxCol);
      AppendAssociative(old(g.log),
        GridOps(host, m, DamagedArea(host, m, minRow, maxRow, minCol, maxCol), minRow, maxRow, minCol, maxCol),
        CellOps(host, Some(m), Plan(m, minRow, maxRow, minCol, maxCol + 1)));
    }

    /** `paintCells`: column by column, each painted cell's span skipped. */
    method PaintCells(g: Graphics, host: Host, minRow: int, maxRow: int, minCol: int, maxCol: int)
      requires table.spanModel.Some?
      requires ReachesRow(table.spanModel.value, minRow, maxRow, minCol, maxCol)
      modifies g
      ensures g.log == old(g.log) + CellOps(host, table.spanModel, Plan(table.spanModel.value, minRow, maxRow, minCol, maxCol + 1))
    {
      ghost var sm := table.spanModel;
      ghost var m := sm.value;
      var col := minCol;
      while col <= maxCol
        invariant minCol <= col && (col <= maxCol + 1 || col == minCol)
        invariant g.log == old(g.log) + CellOps(host, sm, Plan(m, minRow, maxRow, minCol, col))
      {
        ghost var columnStart := g.log;
        PaintColumn(g, host, col, minRow, maxRow);
        LogColumn(old(g.log), host, sm, Plan(m, minRow, maxRow, minCol, col), ColumnPlan(m, col, minRow, maxRow));
        col := col + 1;
      }
    }

    /** The inner loop of `paintCells`: one column from `minRow` down to
        `maxRow`, continuing after the span of each painted cell. */
    method PaintColumn(g: Graphics, host: Host, col: int, minRow: int, maxRow: int)
      requires table.spanModel.Some?
      requires forall r :: minRow <= r <= maxRow ==> table.spanModel.value(r, col).maxRow >= r
      modifies g
      ensures g.log == old(g.log) + CellOps(host, table.spanModel, ColumnPlan(table.spanModel.value, col, minRow, maxRow))
    {
      ghost var sm := table.spanModel;
      ghost var m := sm.value;
      ghost var done: seq<Cell> := [];
      var row := minRow;
      while row <= maxRow
        invariant minRow <= row
        invariant done + ColumnPlan(m, col, row, maxRow) == ColumnPlan(m, col, minRow, maxRow)
        invariant g.log == old(g.log) + CellOps(host, sm, done)
        decreases maxRow - row
      {
        var area := CellRect(host, table.spanModel, row, col, true);
        PaintCell(g, host, row, col, area);
        var span := table.spanModel.value(row, col);
        ghost var cell := Cell(row, col);
        ColumnPlanStep(m, col, row, maxRow, minRow, done);
        LogCell(old(g.log), host, sm, done, cell, area);
        done := done + [cell];
        ghost var next := m(row, col).maxRow + 1;
        row := row + (span.maxRow - row);
        row := row + 1;
        assert row == next;
      }
      assert done == ColumnPlan(m, col, minRow, maxRow);
    }

    /** `paintCell(row, column, g, area)`. */
    method PaintCell(g: Graphics, host: Host, row: int, column: int, area: Rect)
      modifies g
      ensures g.log == old(g.log) + [CellPaint(host, table.spanModel, row, column, area)]
    {
      var verticalMargin := host.rowMargin;
      var horizontalMargin := host.columnMargin;
      var inset := Rect(area.x + Half(horizontalMargin), area.y + Half(verticalMargin),
                        area.width - horizontalMargin, area.height - verticalMargin);
      if host.editing && host.editingRow == row && host.editingColumn == column {
        g.Record(PlaceEditor(row, column, inset));
      } else {
        var state := PrepareRenderer(host, table.spanModel, row, column);
        g.Record(Render(row, column, inset, state));
      }
    }

    /** `paintGrid(g, rMin, rMax, cMin, cMax)`: the lines are measured from the
        union of the spanning rectangles of the two corner cells. */
    method PaintGrid(g: Graphics, host: Host, rMin: int, rMax: int, cMin: int, cMax: int)
      requires table.spanModel.Some?
      modifies g
      ensures g.log == old(g.log) +
        GridOps(host, table.spanModel.value, DamagedArea(host, table.spanModel.value, rMin, rMax, cMin, cMax),
                rMin, rMax, cMin, cMax)
    {
      var minCell := CellRect(host, table.spanModel, rMin, cMin, true);
      var maxCell := CellRect(host, table.spanModel, rMax, cMax, true);
      var damagedArea := Add(minCell, maxCell);
      ghost var spanModel := table.spanModel.value;
      assert damagedArea == DamagedArea(host, spanModel, rMin, rMax, cMin, cMax);
      PaintLines(g, host, damagedArea, rMin, rMax, cMin, cMax);
    }

    /** The lines of `paintGrid` once the damaged area is known. */
    method PaintLines(g: Graphics, host: Host, damagedArea: Rect, rMin: int, rMax: int, cMin: int, cMax: int)
      requires table.spanModel.Some?
      modifies g
      ensures g.log == old(g.log) + GridOps(host, table.spanModel.value, damagedArea, rMin, rMax, cMin, cMax)
    {
      if host.showHorizontalLines {
        PaintHorizontalLines(g, host, damagedArea, rMin, rMax, cMin, cMax);
      }
      ghost var horizontal := g.log;
      if host.showVerticalLines {
        PaintVerticalLines(g, host, damagedArea, cMin, cMax);
      }
      AppendAssociative(old(g.log), horizontal[|old(g.log)|..], g.log[|horizontal|..]);
    }

    /** The horizontal half of `paintGrid`: for each cell whose span ends at
        its row, the segment `HLineAt` places. */
    method PaintHorizontalLines(g: Graphics, host: Host, damagedArea: Rect, rMin: int, rMax: int, cMin: int, cMax: int)
      requires table.spanModel.Some?
      modifies g
      ensures g.log == old(g.log) + HLines(host, table.spanModel.value, damagedArea, rMin, rMax + 1, cMin, cMax)
    {
      var y := damagedArea.y;
      ghost var spanModel := table.spanModel.value;
      var row := rMin;
      while row <= rMax
        invariant rMin <= row && (row <= rMax + 1 || row == rMin)
        invariant y == damagedArea.y + RowHeights(host, rMin, row)
        invariant g.log == old(g.log) + HLines(host, spanModel, damagedArea, rMin, row, cMin, cMax)
      {
        y := y + host.rowHeight(row);
        PaintRowLines(g, host, damagedArea, rMin, row, cMin, cMax, y);
        LogRow(old(g.log), host, spanModel, damagedArea, rMin, row, cMin, cMax);
        AppendAssociative(old(g.log), HLines(host, spanModel, damagedArea, rMin, row, cMin, cMax),
                          RowLines(host, spanModel, damagedArea, rMin, row, cMin, cMax + 1));
        row := row + 1;
      }
    }

    /** The inner loop of the horizontal half: across the columns of `row`,
        whose last pixel row is `y - 1`. */
    method PaintRowLines(g: Graphics, host: Host, damagedArea: Rect, rMin: int, row: int, cMin: int, cMax: int, y: int)
      requires table.spanModel.Some? && rMin <= row
      requires y == damagedArea.y + RowHeights(host, rMin, row + 1)
      modifies g
      ensures g.log == old(g.log) + RowLines(host, table.spanModel.value, damagedArea, rMin, row, cMin, cMax + 1)
    {
      var spanModel := table.spanModel.value;
      var x := damagedArea.x;
      var col := cMin;
      while col <= cMax
        invariant cMin <= col && (col <= cMax + 1 || col == cMin)
        invariant x == damagedArea.x + ColumnWidths(host, cMin, col)
        invariant g.log == old(g.log) + RowLines(host, spanModel, damagedArea, rMin, row, cMin, col)
      {
        var columnWidth := host.columnWidth(col);
        LogRowLine(old(g.log), host, spanModel, damagedArea, rMin, row, cMin, col, x, y);
        if spanModel(row, col).maxRow <= row {
          DrawHLine(g, x, x + columnWidth - 1, y - 1);
        }
        x := x + columnWidth;
        col := col + 1;
      }
    }

    /** The vertical half of `paintGrid`: one line after each column, taken
        from `cMin` up in a left-to-right table and from `cMax` down otherwise. */
    method PaintVerticalLines(g: Graphics, host: Host, damagedArea: Rect, cMin: int, cMax: int)
      modifies g
      ensures var tableHeight := damagedArea.y + damagedArea.height;
        g.log == old(g.log) +
          if host.leftToRight then VLinesLtr(host, damagedArea.x, tableHeight, cMin, cMax + 1)
          else VLinesRtl(host, damagedArea.x, tableHeight, cMin, cMax)
    {
      var tableHeight := damagedArea.y + damagedArea.height;
      var x;
      if host.leftToRight {
        x := damagedArea.x;
        var column := cMin;
        while column <= cMax
          invariant cMin <= column && (column <= cMax + 1 || column == cMin)
          invariant x == damagedArea.x + ColumnWidths(host, cMin, column)
          invariant g.log == old(g.log) + VLinesLtr(host, damagedArea.x, tableHeight, cMin, column)
        {
          var w := host.columnWidth(column);
          x := x + w;
          LogVLineLtr(old(g.log), host, damagedArea.x, tableHeight, cMin, column, x);
          DrawVLine(g, x - 1, 0, tableHeight - 1);
          column := column + 1;
        }
      } else {
        x := damagedArea.x;
        var column := cMax;
        while column >= cMin
          invariant column <= cMax && (cMin - 1 <= column || column == cMax)
          invariant x == damagedArea.x + ColumnWidths(host, column + 1, cMax + 1)
          invariant g.log == old(g.log) + VLinesRtl(host, damagedArea.x, tableHeight, column + 1, cMax)
        {
          var w := host.columnWidth(column);
          x := x + w;
          ColumnWidthsFront(host, column, cMax + 1);
          LogVLineRtl(old(g.log), host, damagedArea.x, tableHeight, column, cMax, x);
          DrawVLine(g, x - 1, 0, tableHeight - 1);
          column := column - 1;
        }
      }
    }

    /** `drawVLine(g, x, y1, y2)`: the endpoints ordered, then one fill. */
    static method DrawVLine(g: Graphics, x: int, y1: int, y2: int)
      modifies g
      ensures g.log == old(g.log) + [Fill(VLineRect(x, y1, y2))]
    {
      var top, bottom := y1, y2;
      if bottom < top {
        top, bottom := bottom, top;
      }
      g.FillRect(x, top, 1, bottom - top + 1);
    }

    /** `drawHLine(g, x1, x2, y)`: the endpoints ordered, then one fill. */
    static method DrawHLine(g: Graphics, x1: int, x2: int, y: int)
      modifies g
      ensures g.log == old(g.log) + [Fill(HLineRect(x1, x2, y))]
    {
      var left, right := x1, x2;
      if right < left {
        left, right := right, left;
      }
      g.FillRect(left, y, right - left + 1, 1);
    }
  }
}
