/** RowSpan.java: an inclusive run of rows, and the RowSpanModel capability
    that answers a span for a cell. */
module Spans {

  /** `IntStream.rangeClosed(lo, hi)`: `lo, lo + 1, ..., hi`, empty when `hi < lo`. */
  function RangeClosed(lo: int, hi: int): (rs: seq<int>)
    ensures |rs| == if hi < lo then 0 else hi - lo + 1
    ensures forall i :: 0 <= i < |rs| ==> rs[i] == lo + i
    decreases hi - lo
  {
    if hi < lo then [] else [lo] + RangeClosed(lo + 1, hi)
  }

  /** An inclusive interval `[minRow, maxRow]` of row indices; its fields are
      final, so a value of this datatype is the whole object. */
  datatype RowSpan = RowSpan(minRow: int, maxRow: int)
  {
    /** `rows()`: the rows of the span in ascending order. */
    function Rows(): (rs: seq<int>)
      ensures |rs| == if maxRow < minRow then 0 else maxRow - minRow + 1
      ensures forall i :: 0 <= i < |rs| ==> rs[i] == minRow + i
      ensures forall i, j :: 0 <= i < j < |rs| ==> rs[i] < rs[j]
    {
      RangeClosed(minRow, maxRow)
    }
  }

  /** A row `r` is listed by `rows()` exactly when it lies in the interval. */
  lemma RowsMembership(s: RowSpan, r: int)
    ensures r in s.Rows() <==> s.minRow <= r <= s.maxRow
  {
    if s.minRow <= r <= s.maxRow {
      assert s.Rows()[r - s.minRow] == r;
    }
  }

  /** RowSpanModel: the span, in the same coordinates, of the cell at
      `(row, column)`. */
  type SpanModel = (int, int) -> RowSpan

  /** Every span a model answers contains the row it was asked about. */
  ghost predicate Anchored(m: SpanModel)
  {
    forall r, c :: m(r, c).minRow <= r <= m(r, c).maxRow
  }
}
