# RowSpanningTable in Dafny

A model of the core of RowSpanningTable, a Swing `JTable` in which a cell can
span several consecutive rows. A `RowSpanModel` answers, for each cell, the
inclusive run of rows (`RowSpan`) that the cell covers. `GroupingRowSpanModel`
is the stock model: a cell spans the maximal run of vertically adjacent rows
whose value in its column is the very same object. The table converts model
spans into view spans. It then answers spanning cell rectangles
(`getCellRect`), selection and focus flags for the renderer (`prepareRenderer`)
and repaint regions for selection changes (`valueChanged`). Its UI delegate
paints the grid lines and every spanning cell once, skipping the rows that a
painted cell covers.

Files, one module each:

- `geometry.dfy` (`Geometry`): `java.awt.Rectangle` rules the code relies on.
  `add` and `union` agree on every receiver the table builds (a present
  rectangle or `new Rectangle(-1, -1)`) and are modelled once as `Add`. Also
  `intersects`, `intersection`, and Java's truncating `/ 2` (`Half`).
- `row_span.dfy` (`Spans`): `RowSpan`, `rows()`, and the `RowSpanModel`
  capability as a function type `SpanModel`.
- `grouping.dfy` (`Grouping`): `GroupingRowSpanModel.getSpan`. The
  `iterate/filter/findFirst` streams become the recursive scans `ScanUp`
  and `ScanDown`. Cells are grouped by reference identity (`Ref`), never by
  content.
- `spanning_table.dfy` (`SpanningTable`): the Java code that reads and
  computes is written as functions. `convertRowSpanToView`, `getViewRowSpan`,
  the `getCellRect` rectangle, the `prepareRenderer` flags and the
  `valueChanged` region are all functions. The class `RowSpanningTable`
  holds the `spanModel` field (Java `null` is `None`). `GetCellRect` and
  `ValueChanged` keep the Java loops, and each is proved equal to its
  function. `SetSpanModel` keeps the null check and states the new field.
- `spanning_table_ui.dfy` (`SpanningTableUI`): the class `RowSpanningTableUI`
  with the imperative paint pass. Drawing goes to a `Graphics` object whose
  `log` records:
  - each `fillRect`,
  - each renderer painted, with its flags,
  - each placement of the cell editor.

  Every paint method is proved to append exactly the operations that a
  specification function lists. That function's own properties are proved
  as lemmas:
  - no row inside a painted span is painted again;
  - every column is visited;
  - a horizontal segment is drawn for exactly the cells whose span ends at
    that row, at the offset `paintGrid` accumulates from the damaged area
    (see Findings for where that offset lands);
  - the vertical lines sit at the accumulated column widths, in both
    orientations.

The JTable state and collaborators the code consults form one `Host` value.
None of them is defined in this repository, so they are inputs:

- row and column index conversion;
- `super.getCellRect` (`underlying`);
- margins;
- selection, lead indices and focus;
- hit testing (`rowAtPoint`, `columnAtPoint`);
- row heights and column widths;
- grid flags, orientation and the editing cell.

Two behaviours are modelled as written:

- `paintCells` and `paintGrid` ask the span model with view indices
  (`RowSpanningTableUI.java:81`, `:136`). `getViewRowSpan` converts to model
  indices first. With sorting or filtering, the two therefore consult
  different rows.
- `paintCells` advances with `row += span.maxRow - row` and then `row++`.
  It terminates when every span it is given ends at or below the row it was
  asked about; this is the precondition `ReachesRow`. A span of row `r` that
  ends at `r - 1` keeps the loop on `r` forever, and one that ends further up
  sends it back to earlier rows, which may or may not end.
  `AnchoredReachesRow` shows that every model whose spans contain the row
  asked about meets it, and `Grouping.Model` is such a model.

## Model

| member | source | states |
|---|---|---|
| Geometry.Half | src/main/java/de/vrihi/swing/spanningtable/RowSpanningTable.java:96 | Java's `n / 2` truncates toward zero: for `n >= 0` the result is the floor of half, for `n < 0` the ceiling |
| Geometry.Add | src/main/java/de/vrihi/swing/spanningtable/RowSpanningTable.java:85-89 | `Rectangle.add`/`union`: an absent receiver yields the argument, an absent argument leaves the receiver, and otherwise the result is the bounding box, which covers both |
| Geometry.Intersection | src/main/java/de/vrihi/swing/spanningtable/RowSpanningTableUI.java:24 | when two rectangles intersect, their intersection is present, positive and inside both |
| Geometry.Intersects | src/main/java/de/vrihi/swing/spanningtable/RowSpanningTableUI.java:21 | `Rectangle.intersects`: both rectangles have a positive size and overlap; `VisibleRange` returns early exactly when it fails |
| Spans.RangeClosed | src/main/java/de/vrihi/swing/spanningtable/RowSpan.java:18 | `rangeClosed(lo, hi)` lists `lo + i` at index `i`, `hi - lo + 1` values, and none when `hi < lo` |
| Spans.RowSpan.Rows | src/main/java/de/vrihi/swing/spanningtable/RowSpan.java:5-19 | `RowSpan` is the immutable pair of final fields `minRow` and `maxRow`, and `rows()` lists `minRow .. maxRow` in strictly ascending order |
| Spans.RowsMembership | src/main/java/de/vrihi/swing/spanningtable/RowSpan.java:16-19 | a row is listed by `rows()` exactly when it lies in the inclusive interval |
| Grouping.ScanUp | src/main/java/de/vrihi/swing/spanningtable/GroupingRowSpanModel.java:21-24 | the upward scan stops at -1 or at the first row not holding the reference, and every row it passed holds it |
| Grouping.ScanDown | src/main/java/de/vrihi/swing/spanningtable/GroupingRowSpanModel.java:26-29 | the downward scan stops at the row count or at the first row not holding the reference, and every row it passed holds it |
| Grouping.GetSpan | src/main/java/de/vrihi/swing/spanningtable/GroupingRowSpanModel.java:17-32 | the span lies inside the table and contains `row`; every row of it holds the same reference; the rows just above and just below do not (maximality) |
| Grouping.MaximalRunUnique | src/main/java/de/vrihi/swing/spanningtable/GroupingRowSpanModel.java:17-32 | two maximal runs of one reference that share a row are the same run |
| Grouping.SpanPartition | src/main/java/de/vrihi/swing/spanningtable/GroupingRowSpanModel.java:17-32 | every row of a cell's span answers the identical span, so the spans partition the column |
| Grouping.DistinctReferencesSplit | src/main/java/de/vrihi/swing/spanningtable/GroupingRowSpanModel.java:19-29 | adjacent cells holding distinct references are never merged, even when their contents are equal |
| Grouping.Model | src/main/java/de/vrihi/swing/spanningtable/GroupingRowSpanModel.java:17-32 | the grouping model, as a span model, always answers a span containing the row asked about |
| SpanningTable.VisibleRowsMembership | src/main/java/de/vrihi/swing/spanningtable/RowSpanningTable.java:60-63 | the mapped and filtered list holds a value exactly when it is non-negative and some listed model row converts to it |
| SpanningTable.VisibleRows | src/main/java/de/vrihi/swing/spanningtable/RowSpanningTable.java:60-63 | the mapped and filtered stream of view indices; `VisibleRowsMembership` states what it holds |
| SpanningTable.ViewRowsMembership | src/main/java/de/vrihi/swing/spanningtable/RowSpanningTable.java:60-63 | `spanList` holds a view row exactly when some model row of the span is shown there |
| SpanningTable.CountBelowRun | src/main/java/de/vrihi/swing/spanningtable/RowSpanningTable.java:65-68 | `fewerRows` counts the listed rows directly below `row` without a gap and stops at the first unlisted one |
| SpanningTable.CountBelow | src/main/java/de/vrihi/swing/spanningtable/RowSpanningTable.java:65-68 | the `takeWhile(...).count()` below `row`; `CountBelowRun` states what it counts |
| SpanningTable.CountAboveRun | src/main/java/de/vrihi/swing/spanningtable/RowSpanningTable.java:69-72 | `additionalRows` counts the listed rows directly above `row` without a gap and stops at the first unlisted one |
| SpanningTable.CountAbove | src/main/java/de/vrihi/swing/spanningtable/RowSpanningTable.java:69-72 | the same count above `row`; `CountAboveRun` states what it counts |
| SpanningTable.ConvertRowSpanToView | src/main/java/de/vrihi/swing/spanningtable/RowSpanningTable.java:58-75 | the converted span contains `row` |
| SpanningTable.ConvertRowSpanToViewRun | src/main/java/de/vrihi/swing/spanningtable/RowSpanningTable.java:58-75 | the converted span is the maximal run of shown span rows around `row`, bounded on both sides by unlisted rows, and stays non-negative when `row` is |
| SpanningTable.ConvertedRowsAreShown | src/main/java/de/vrihi/swing/spanningtable/RowSpanningTable.java:58-75 | every row of the converted span other than `row` is the view index of some model row of the span |
| SpanningTable.ViewRowSpan | src/main/java/de/vrihi/swing/spanningtable/RowSpanningTable.java:52-56 | `getViewRowSpan(row, column)` contains `row` |
| SpanningTable.UnionRowsCovers | src/main/java/de/vrihi/swing/spanningtable/RowSpanningTable.java:85-89 | the accumulated rectangle covers every present row rectangle added, and is then present |
| SpanningTable.UnionRows | src/main/java/de/vrihi/swing/spanningtable/RowSpanningTable.java:83-89 | the rectangles of the span's rows added to `new Rectangle(-1, -1)`; `UnionRowsCovers` and `UnionRowsStacked` state what it covers and its shape |
| SpanningTable.Shrink | src/main/java/de/vrihi/swing/spanningtable/RowSpanningTable.java:91-97 | the margin step never yields a negative size from a present rectangle, stays inside it for non-negative margins, is the plain inset when the margins fit, and is the identity for zero margins |
| SpanningTable.CellRect | src/main/java/de/vrihi/swing/spanningtable/RowSpanningTable.java:77-100 | without a span model the rectangle is `super.getCellRect` |
| SpanningTable.CellRectCoversSpan | src/main/java/de/vrihi/swing/spanningtable/RowSpanningTable.java:77-100 | the spanning rectangle covers the rectangle of every row of the cell's view span, and without spacing it is present |
| SpanningTable.UnionRowsStacked | src/main/java/de/vrihi/swing/spanningtable/RowSpanningTable.java:85-89 | rows of the table laid out as JTable stacks them add up to one rectangle from the top of the first to the bottom of the last |
| SpanningTable.UnionRowsBlock | src/main/java/de/vrihi/swing/spanningtable/RowSpanningTable.java:85-89 | that rectangle starts below the rows above the first and is as tall as the rows it covers |
| SpanningTable.CellRectOfSpan | src/main/java/de/vrihi/swing/spanningtable/RowSpanningTable.java:77-100 | with the JTable layout, for a row of the table whose span's model rows are hidden or shown inside the table, the view span lies inside the table and the spanning rectangle starts at the top of its first view row and is as tall as that span |
| SpanningTable.AnySelectedExists | src/main/java/de/vrihi/swing/spanningtable/RowSpanningTable.java:124-127 | the `reduce(false, logicalOr)` is true exactly when some listed row is selected |
| SpanningTable.AnySelected | src/main/java/de/vrihi/swing/spanningtable/RowSpanningTable.java:124-127 | the `isCellSelected` reduction over the span's rows; `AnySelectedExists` states its meaning |
| SpanningTable.AnySelectedSpan | src/main/java/de/vrihi/swing/spanningtable/RowSpanningTable.java:122-127 | over a span, it is true exactly when some row of the interval is selected |
| SpanningTable.PrepareRendererFlags | src/main/java/de/vrihi/swing/spanningtable/RowSpanningTable.java:107-144 | printing shows no flags. With a model, a cell is selected exactly when a row of its view span is, and focused exactly when the lead row is in that span, the lead column is its own and the table owns the focus. Without a model, the cell answers for itself. A selected cell is always shown selected |
| SpanningTable.PrepareRenderer | src/main/java/de/vrihi/swing/spanningtable/RowSpanningTable.java:107-144 | the flags handed to the renderer; `PrepareRendererFlags` states them |
| SpanningTable.ClampIndex | src/main/java/de/vrihi/swing/spanningtable/RowSpanningTable.java:151-152 | in a table with rows, the event index is clamped into `0 .. rowCount - 1` and kept when already inside; with no rows it is -1 |
| SpanningTable.DirtyColumns | src/main/java/de/vrihi/swing/spanningtable/RowSpanningTable.java:157-160 | the region keeps covering what it covered and covers every present cell rectangle of the row added to it |
| SpanningTable.DirtyRowsCover | src/main/java/de/vrihi/swing/spanningtable/RowSpanningTable.java:154-161 | the region covers the present no-spacing rectangle of every column of every row the loop went through |
| SpanningTable.DirtyRows | src/main/java/de/vrihi/swing/spanningtable/RowSpanningTable.java:154-161 | the region after the outer loop's rows; `DirtyRowsCover` states what it covers |
| SpanningTable.RepaintCoversSpans | src/main/java/de/vrihi/swing/spanningtable/RowSpanningTable.java:146-164 | with zero margins, a selection change repaints every row of the view span of every cell in a touched row |
| SpanningTable.DirtyRegion | src/main/java/de/vrihi/swing/spanningtable/RowSpanningTable.java:146-164 | the region `valueChanged` repaints; `RepaintCoversSpans` states that it covers every touched span |
| SpanningTable.CellRectWithoutMargins | src/main/java/de/vrihi/swing/spanningtable/RowSpanningTable.java:91-97 | with zero margins and a present rectangle, `includeSpacing` makes no difference |
| SpanningTable.EmptyTableVisitsRowMinusOne | src/main/java/de/vrihi/swing/spanningtable/RowSpanningTable.java:151-161 | as written, on a table without rows both indices clamp to -1 and the region is built from the cells of row -1 (see Findings) |
| SpanningTable.GuardedDirtyRegionInTable | src/main/java/de/vrihi/swing/spanningtable/RowSpanningTable.java:146-164 | corrected: the guarded region is built from rows of the table only, and equals the source's region whenever the table has rows |
| SpanningTable.RowSpanningTable.constructor | src/main/java/de/vrihi/swing/spanningtable/RowSpanningTable.java:17 | a table built without a span model has none |
| SpanningTable.RowSpanningTable.WithModel | src/main/java/de/vrihi/swing/spanningtable/RowSpanningTable.java:19-38 | the constructors taking a span model install it |
| SpanningTable.RowSpanningTable.SetSpanModel | src/main/java/de/vrihi/swing/spanningtable/RowSpanningTable.java:40-45 | a null model is rejected and the installed model stays; any other replaces it |
| SpanningTable.RowSpanningTable.GetCellRect | src/main/java/de/vrihi/swing/spanningtable/RowSpanningTable.java:77-100 | the loop over the view span, with the margin step, returns the `CellRect` rectangle whose covering and layout properties are proved above |
| SpanningTable.RowSpanningTable.ValueChanged | src/main/java/de/vrihi/swing/spanningtable/RowSpanningTable.java:146-164 | the indices are the clamped event indices and the nested loops accumulate the `DirtyRegion` that `RepaintCoversSpans` is about |
| SpanningTableUI.VLineRect | src/main/java/de/vrihi/swing/spanningtable/RowSpanningTableUI.java:176-183 | `drawVLine` fills one pixel column from the smaller to the larger endpoint, both included |
| SpanningTableUI.HLineRect | src/main/java/de/vrihi/swing/spanningtable/RowSpanningTableUI.java:196-203 | `drawHLine` fills one pixel row from the smaller to the larger endpoint, both included |
| SpanningTableUI.LinesSymmetric | src/main/java/de/vrihi/swing/spanningtable/RowSpanningTableUI.java:176-203 | neither routine depends on the order of its endpoints |
| SpanningTableUI.CellAreaMatchesCellRect | src/main/java/de/vrihi/swing/spanningtable/RowSpanningTableUI.java:94-99 | where the margins fit, the unclamped inset of `paintCell` is exactly `getCellRect(row, column, false)` |
| SpanningTableUI.CellArea | src/main/java/de/vrihi/swing/spanningtable/RowSpanningTableUI.java:94-99 | the unclamped margin inset of `paintCell`; `CellAreaMatchesCellRect` relates it to `getCellRect` |
| SpanningTableUI.CellPaint | src/main/java/de/vrihi/swing/spanningtable/RowSpanningTableUI.java:89-115 | what `paintCell` does: place the editor over the inset area for the cell being edited, otherwise paint the renderer there with the `prepareRenderer` flags; `PaintCell` appends exactly this |
| SpanningTableUI.AnchoredReachesRow | src/main/java/de/vrihi/swing/spanningtable/RowSpanningTableUI.java:78-83 | a model whose spans contain the row asked about lets the skip loop terminate over any range |
| SpanningTableUI.ColumnPlan | src/main/java/de/vrihi/swing/spanningtable/RowSpanningTableUI.java:78-83 | the cells painted in a column lie in that column and range and start at the first row |
| SpanningTableUI.ColumnPlanOrdered | src/main/java/de/vrihi/swing/spanningtable/RowSpanningTableUI.java:78-83 | after a painted cell, painting resumes on the row just below its span, so the painted rows strictly increase |
| SpanningTableUI.NoInteriorRowPainted | src/main/java/de/vrihi/swing/spanningtable/RowSpanningTableUI.java:78-83 | no painted cell lies inside the span of another painted cell of the column below its first row |
| SpanningTableUI.Plan | src/main/java/de/vrihi/swing/spanningtable/RowSpanningTableUI.java:76-84 | every cell `paintCells` paints lies in the row and column range |
| SpanningTableUI.EveryColumnVisited | src/main/java/de/vrihi/swing/spanningtable/RowSpanningTableUI.java:76-84 | every column of the range is painted, starting with its first row |
| SpanningTableUI.HLinesComplete | src/main/java/de/vrihi/swing/spanningtable/RowSpanningTableUI.java:125-142 | every cell of the range whose span ends at its row gets its `HLineAt` segment |
| SpanningTableUI.HLineAt | src/main/java/de/vrihi/swing/spanningtable/RowSpanningTableUI.java:128-140 | the segment for `(row, column)` at the offset `paintGrid` accumulates from the damaged area; `HLineRaisedInsideSpan` and `HLineMirroredRtl` show where it lands |
| SpanningTableUI.RowLines | src/main/java/de/vrihi/swing/spanningtable/RowSpanningTableUI.java:132-140 | one row's segments; `RowLinesComplete` and `RowLinesSound` state which columns get one |
| SpanningTableUI.HLines | src/main/java/de/vrihi/swing/spanningtable/RowSpanningTableUI.java:125-142 | all horizontal segments; `HLinesComplete` and `HLinesSound` state which cells get one |
| SpanningTableUI.HLinesSound | src/main/java/de/vrihi/swing/spanningtable/RowSpanningTableUI.java:125-142 | every segment drawn is the `HLineAt` segment of such a cell |
| SpanningTableUI.RowLinesComplete | src/main/java/de/vrihi/swing/spanningtable/RowSpanningTableUI.java:132-140 | within one row, every column whose span ends there gets its `HLineAt` segment |
| SpanningTableUI.RowLinesSound | src/main/java/de/vrihi/swing/spanningtable/RowSpanningTableUI.java:132-140 | within one row, every segment drawn is the `HLineAt` segment of such a column |
| SpanningTableUI.VLinesLtr | src/main/java/de/vrihi/swing/spanningtable/RowSpanningTableUI.java:147-153 | left to right, one vertical line per column of the range, the `k`-th after the widths of the first `k + 1` columns |
| SpanningTableUI.VLinesRtl | src/main/java/de/vrihi/swing/spanningtable/RowSpanningTableUI.java:154-160 | right to left, one vertical line per column, the `k`-th after the widths of the last `k + 1` columns |
| SpanningTableUI.VisibleRange | src/main/java/de/vrihi/swing/spanningtable/RowSpanningTableUI.java:21-67 | nothing is painted exactly when the table has no rows, no columns or no overlap with the clip. Otherwise each -1 from hit testing becomes the first or the last index, the columns use the clip itself for FIT_WIDTH, and a right-to-left table swaps the corners |
| SpanningTableUI.DamagedArea | src/main/java/de/vrihi/swing/spanningtable/RowSpanningTableUI.java:121-123 | `minCell.union(maxCell)`; `DamagedAreaLeftEdge` states where it starts |
| SpanningTableUI.DamagedAreaLeftEdge | src/main/java/de/vrihi/swing/spanningtable/RowSpanningTableUI.java:121-123 | in a laid-out table the damaged area starts at the left edge of the column range: `cMin`'s edge left to right, `cMax`'s right to left |
| SpanningTableUI.GridOps | src/main/java/de/vrihi/swing/spanningtable/RowSpanningTableUI.java:117-163 | everything `paintGrid` draws; `PaintGrid` appends exactly this |
| SpanningTableUI.HLineRaisedInsideSpan | src/main/java/de/vrihi/swing/spanningtable/RowSpanningTableUI.java:125-131 | as written, a paint range that starts inside a tall cell draws the cell's segment above its bottom and none at its bottom (see Findings) |
| SpanningTableUI.HLineMirroredRtl | src/main/java/de/vrihi/swing/spanningtable/RowSpanningTableUI.java:131-140 | as written, right to left, a segment is drawn at the mirrored column's place, through a spanning cell (see Findings) |
| SpanningTableUI.HLineUnderCell | src/main/java/de/vrihi/swing/spanningtable/RowSpanningTableUI.java:125-140 | corrected: in a laid-out table the segment of any cell of the range runs along that cell's bottom pixel row across exactly its width, in either orientation |
| SpanningTableUI.VisibleRangeInTable | src/main/java/de/vrihi/swing/spanningtable/RowSpanningTableUI.java:29-67 | with hit testing that answers -1 or a table index, every index of the range lies inside the table |
| SpanningTableUI.PaintOpsOfRange | src/main/java/de/vrihi/swing/spanningtable/RowSpanningTableUI.java:69-71 | a paint pass over a computed range draws that range's grid and then its cells |
| SpanningTableUI.PaintOps | src/main/java/de/vrihi/swing/spanningtable/RowSpanningTableUI.java:12-72 | everything a paint pass draws; `PaintOpsOfRange` states its shape and `Paint` appends exactly this |
| SpanningTableUI.RowSpanningTableUI.Paint | src/main/java/de/vrihi/swing/spanningtable/RowSpanningTableUI.java:12-72 | the log grows by exactly the grid lines and then the cells of the visible range, or by nothing when `paint` returns early |
| SpanningTableUI.RowSpanningTableUI.ComputeVisibleRange | src/main/java/de/vrihi/swing/spanningtable/RowSpanningTableUI.java:14-67 | the early return and the -1 fix-ups compute `VisibleRange` |
| SpanningTableUI.RowSpanningTableUI.PaintRange | src/main/java/de/vrihi/swing/spanningtable/RowSpanningTableUI.java:69-71 | `paintGrid` and then `paintCells` append the grid and then the cells of the range |
| SpanningTableUI.RowSpanningTableUI.PaintCells | src/main/java/de/vrihi/swing/spanningtable/RowSpanningTableUI.java:74-87 | the log grows by one cell operation per cell of `Plan`, column after column |
| SpanningTableUI.RowSpanningTableUI.PaintColumn | src/main/java/de/vrihi/swing/spanningtable/RowSpanningTableUI.java:78-83 | the skip loop paints exactly the cells of `ColumnPlan`, each into its spacing-inclusive rectangle |
| SpanningTableUI.RowSpanningTableUI.PaintCell | src/main/java/de/vrihi/swing/spanningtable/RowSpanningTableUI.java:89-115 | one operation inside the inset area: the editor placed when the cell is being edited, the renderer with the `prepareRenderer` flags otherwise |
| SpanningTableUI.RowSpanningTableUI.PaintGrid | src/main/java/de/vrihi/swing/spanningtable/RowSpanningTableUI.java:117-163 | the lines are measured from the union of the spanning rectangles of the two corner cells |
| SpanningTableUI.RowSpanningTableUI.PaintLines | src/main/java/de/vrihi/swing/spanningtable/RowSpanningTableUI.java:125-162 | horizontal segments when enabled, then vertical lines when enabled |
| SpanningTableUI.RowSpanningTableUI.PaintHorizontalLines | src/main/java/de/vrihi/swing/spanningtable/RowSpanningTableUI.java:125-142 | the log grows by `HLines`, whose completeness and soundness are proved |
| SpanningTableUI.RowSpanningTableUI.PaintRowLines | src/main/java/de/vrihi/swing/spanningtable/RowSpanningTableUI.java:132-140 | one row's segments, each one pixel above the damaged area's top plus the heights of rows `rMin .. row`, at the accumulated column width |
| SpanningTableUI.RowSpanningTableUI.PaintVerticalLines | src/main/java/de/vrihi/swing/spanningtable/RowSpanningTableUI.java:143-162 | one line after each column, in the table's orientation, each from the top to `tableHeight - 1` |
| SpanningTableUI.RowSpanningTableUI.DrawVLine | src/main/java/de/vrihi/swing/spanningtable/RowSpanningTableUI.java:176-183 | one `fillRect` of the `VLineRect` rectangle |
| SpanningTableUI.RowSpanningTableUI.DrawHLine | src/main/java/de/vrihi/swing/spanningtable/RowSpanningTableUI.java:196-203 | one `fillRect` of the `HLineRect` rectangle |

## Left out

- Swing plumbing is not modelled:
  - `setUI`, `repaint()` and `repaint(dirtyRegion)`; `ValueChanged` returns the region instead.
  - `super.valueChanged`, `g.setColor`.
  - `getCellRenderer`, the value handed to the renderer, and the renderer component itself (its flags are recorded).
  - `rendererPane.add`/`removeAll`, and the editor's `validate`.
- Everything JTable computes is an input of `Host`: index conversion, `super.getCellRect`, selection, hit testing, sizes, orientation. `getUnderlyingCellRect` and `getSpanModel` are the `underlying` function and the `spanModel` field.
- Java's 32-bit `int` arithmetic and the `(int)` casts of the `long` counts are not modelled. Integers are unbounded, and `Rectangle`'s overflow clamping is not modelled either.
- The "Table.printMode" client property is the boolean `fitWidth`. The table bounds are `width` and `height`.
- SpanningTableUI.RowSpanningTableUI.Paint: requires a span model; `paintCells` and `paintGrid` dereference it, so Java throws without one.
- SpanningTableUI.RowSpanningTableUI.Paint: requires `ReachesRow` over the table, which is enough for the Java loop to terminate. Some models that break it still terminate, because the loop only goes back to earlier rows; the model does not cover them.
- Geometry.Add: `add` and `union` are one rule. They differ only for a receiver with exactly one negative dimension: `union` returns the argument, while `add` keeps the stale dimension in its bounds. The table never builds such a receiver.
- The paint methods use the `CellRect` function, which `RowSpanningTable.GetCellRect` is proved to compute, rather than calling that method.
- Some paint methods are split into helper methods, each proved on its own:
  - `paint` into `ComputeVisibleRange` and `PaintRange`;
  - `paintCells` into `PaintColumn`;
  - `paintGrid` into `PaintLines`, `PaintHorizontalLines`, `PaintRowLines` and `PaintVerticalLines`.
- Grouping.Model: outside the table it answers the single row, where Java fails inside `getValueAt`. The non-null checks of the constructors are covered by the types.
- SpanningTable.ViewRowSpan: states only that the span contains `row`. The full shape of the span is `ConvertRowSpanToViewRun`.

## Findings

| source | as written | input that shows it | evidently intended | confidence | as-written member | corrected member |
|---|---|---|---|---|---|---|
| src/main/java/de/vrihi/swing/spanningtable/RowSpanningTableUI.java:121-131 | horizontal segments are measured down from `damagedArea.y`, the top of the union of the corner cells' spanning rectangles | one column of three rows 10 pixels high holding one cell that spans all three, painting rows 1 .. 2: the one segment lands on y 19, inside the cell, and the cell's bottom row y 29 gets none | measure down from the top of row `rMin` itself | medium; not executed | SpanningTableUI.HLineRaisedInsideSpan | SpanningTableUI.HLineUnderCell |
| src/main/java/de/vrihi/swing/spanningtable/RowSpanningTableUI.java:131-140 | segments are laid out from `damagedArea.x` starting with column `cMin`, whatever the orientation | right to left, two rows 10 pixels high; column 0 is 10 wide at x 30 .. 39 and spans both rows; column 1 is 30 wide at x 0 .. 29; painting row 0 draws column 1's segment at x 10 .. 39, through column 0's cell | right to left, place column `c` after the widths of the columns `c + 1 .. cMax` | medium; not executed | SpanningTableUI.HLineMirroredRtl | SpanningTableUI.HLineUnderCell |
| src/main/java/de/vrihi/swing/spanningtable/RowSpanningTable.java:151-161 | with no rows both clamped indices are -1, and the loops ask for the cell rectangles of row -1 | a selection event on a table with columns and no rows; with `GroupingRowSpanModel`, `getSpan` then reads `getValueAt(-1, c)` | repaint nothing when the table has no rows | medium; not executed | SpanningTable.EmptyTableVisitsRowMinusOne | SpanningTable.GuardedDirtyRegionInTable |

The methods keep modelling the code as written. The corrected definitions are
`HLineUnder` and `GuardedDirtyRegion`, and the lemmas in the last column prove
their intended property.
