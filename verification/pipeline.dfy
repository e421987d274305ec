/**
 The Area/RT table end to end: peak records are pivoted into a
 sample-by-retention-time matrix and its close columns are merged.
 */
module Pipeline {
  import opened Sums
  import opened Table
  import opened Pivot
  import opened Merge

  /** The mean area of each cell of a sample's row, as a function of the column. */
  function MeanRow(records: seq<Record>, s: Sample): Rt -> real {
    c => CellMean(records, s, c)
  }

  /**
   The merged Area/RT table of a record list: one row per sample, only
   columns at rounded retention times of the records, and every sample's
   total area equal to the sum of its per-cell mean areas before merging.
   */
  function AreaRtTable(records: seq<Record>, close: Closeness): (m: Matrix)
    ensures Valid(m)
    ensures forall s :: s in m.rows <==> exists i :: 0 <= i < |records| && records[i].sample == s
    ensures forall c :: c in m.cols ==> exists i :: 0 <= i < |records| && RoundedRt(records[i]) == c
    ensures forall s :: s in m.rows ==> RowTotal(m, s, m.cols) == SumOver(RtIndex(records), MeanRow(records, s))
  {
    var p := PivotRecords(records);
    forall s | s in p.rows ensures RowTotal(p, s, p.cols) == SumOver(RtIndex(records), MeanRow(records, s)) {
      assert p.cols == RtIndex(records);
      SumOverExt(p.cols, p.Row(s), MeanRow(records, s));
    }
    MergeColumns(p, close)
  }
}
