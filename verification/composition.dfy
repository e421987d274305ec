/**
 The relative composition transform (LCAP and RRT). Given the merged matrix,
 a retention-time window and a reference retention time, it keeps the
 columns inside the window, turns each cell into a percentage of its row's
 total over the window, rounded to two decimals, and labels each kept column
 with its relative retention time, the ratio of its retention time to the
 reference rounded to two decimals.
 */
module Composition {
  import opened Order
  import opened Sums
  import opened Rounding
  import opened Table

  /**
   A percentage cell in hundredths of a percent. In a row whose total over the
   window is zero the program's division gives NaN for a zero cell and an
   infinity carrying the cell's sign for a non-zero one; rounding keeps both.
   */
  datatype Percent = Pct(hundredths: int) | NaN | Infinite(positive: bool)

  /** The output table: rows, (RT, RRT) column labels, and percentage cells keyed by row and RT. */
  datatype Sp3Table = Sp3Table(rows: seq<Sample>, labels: seq<(Rt, int)>, cell: map<(Sample, Rt), Percent>)

  /**
   The transform's failure: a zero reference retention time with at least one
   column in the window makes the relative retention time a division by zero.
   */
  datatype Outcome = Table(table: Sp3Table) | ZeroReference

  /** The window test for a column: start <= RT <= end, both ends included. */
  function InWindow(start: Rt, end: Rt): Rt -> bool {
    c => start <= c <= end
  }

  /** The columns inside the window, in the matrix's ascending order. */
  function SelectColumns(m: Matrix, start: Rt, end: Rt): (sel: seq<Rt>)
    requires StrictlySorted(m.cols, RtLess)
    ensures forall c :: c in sel <==> c in m.cols && start <= c <= end
    ensures StrictlySorted(sel, RtLess)
  {
    FilterSorted(m.cols, InWindow(start, end), RtLess);
    Filter(m.cols, InWindow(start, end))
  }

  /** The exact share of `v` in `total`, as a percentage. */
  function Share(v: real, total: real): real
    requires total != 0.0
  {
    v / total * 100.0
  }

  /**
   A cell's percentage of its row total, rounded to hundredths of a percent;
   for a zero total, NaN when the cell is zero and a signed infinity otherwise.
   */
  function Percentage(v: real, total: real): (p: Percent)
    ensures p.Pct? <==> total != 0.0
    ensures p.NaN? <==> total == 0.0 && v == 0.0
    ensures p.Infinite? <==> total == 0.0 && v != 0.0
    ensures p.Infinite? ==> (p.positive <==> v > 0.0)
    ensures p.Pct? ==> Share(v, total) * 100.0 - 0.5 <= p.hundredths as real <= Share(v, total) * 100.0 + 0.5
  {
    if total != 0.0 then Pct(Round2(Share(v, total)))
    else if v == 0.0 then NaN
    else Infinite(v > 0.0)
  }

  /**
   The relative retention time of column `c` against the reference, in
   hundredths: the ratio of the two retention times rounded to two decimals.
   */
  function RelativeRt(c: Rt, reference: Rt): (h: int)
    requires reference != 0
    ensures (c as real / reference as real) * 100.0 - 0.5 <= h as real <= (c as real / reference as real) * 100.0 + 0.5
  {
    Round2(c as real / reference as real)
  }

  /** The advisory check of the reference against the window; it never stops the transform. */
  predicate ReferenceInWindow(start: Rt, end: Rt, reference: Rt) {
    start <= reference <= end
  }

  /** The two-level column labels: each selected RT with its relative retention time, in column order. */
  function Labels(sel: seq<Rt>, reference: Rt): (labels: seq<(Rt, int)>)
    requires reference != 0 || |sel| == 0
    ensures |labels| == |sel|
    ensures forall i :: 0 <= i < |sel| ==> labels[i] == (sel[i], RelativeRt(sel[i], reference))
  {
    seq(|sel|, i requires 0 <= i < |sel| => (sel[i], RelativeRt(sel[i], reference)))
  }

  /** The percentage cells of the selected columns. */
  function Percentages(m: Matrix, sel: seq<Rt>): (cell: map<(Sample, Rt), Percent>)
    ensures forall k :: k in cell <==> k.0 in m.rows && k.1 in sel
    ensures forall s, c :: s in m.rows && c in sel ==> cell[(s, c)] == Percentage(m.At(s, c), RowTotal(m, s, sel))
  {
    map k | k in Grid(m.rows, sel) :: Percentage(m.At(k.0, k.1), RowTotal(m, k.0, sel))
  }

  /** The LCAP/RRT table of a matrix for a window and a reference retention time. */
  function Compose(m: Matrix, start: Rt, end: Rt, reference: Rt): (r: Outcome)
    requires Valid(m)
    ensures r.ZeroReference? <==> reference == 0 && exists c :: c in m.cols && start <= c <= end
    ensures r.Table? ==> r.table.rows == m.rows
    ensures r.Table? ==> |r.table.labels| == |SelectColumns(m, start, end)|
    ensures r.Table? ==> forall i :: 0 <= i < |r.table.labels| ==> r.table.labels[i].0 == SelectColumns(m, start, end)[i]
    ensures r.Table? && reference != 0 ==> forall i :: 0 <= i < |r.table.labels| ==>
      r.table.labels[i].1 == RelativeRt(r.table.labels[i].0, reference)
    ensures r.Table? ==> forall k :: k in r.table.cell <==> k.0 in m.rows && k.1 in m.cols && start <= k.1 <= end
    ensures r.Table? ==> forall s, c :: s in m.rows && c in m.cols && start <= c <= end ==>
      r.table.cell[(s, c)] == Percentage(m.At(s, c), RowTotal(m, s, SelectColumns(m, start, end)))
  {
    var sel := SelectColumns(m, start, end);
    if reference == 0 && |sel| > 0 then
      assert sel[0] in sel;
      ZeroReference
    else
      Table(Sp3Table(m.rows, Labels(sel, reference), Percentages(m, sel)))
  }

  /** The exact percentages of one row over the selected columns. */
  function ShareRow(m: Matrix, s: Sample, sel: seq<Rt>): Rt -> real
    requires RowTotal(m, s, sel) != 0.0
  {
    var total := RowTotal(m, s, sel);
    c => Share(m.At(s, c), total)
  }

  /** Before rounding, a row's percentages over the window add up to exactly 100. */
  lemma {:induction false} SharesSumToHundred(m: Matrix, s: Sample, sel: seq<Rt>)
    requires RowTotal(m, s, sel) != 0.0
    ensures SumOver(sel, ShareRow(m, s, sel)) == 100.0
  {
    var total := RowTotal(m, s, sel);
    var k := 100.0 / total;
    forall i | 0 <= i < |sel| ensures ShareRow(m, s, sel)(sel[i]) == k * m.Row(s)(sel[i]) {
      var v := m.At(s, sel[i]);
      assert v / total * 100.0 == (100.0 / total) * v;
    }
    SumOverScale(sel, m.Row(s), ShareRow(m, s, sel), k);
    assert k * total == 100.0;
  }

  /** The rounded percentages of one output row, in hundredths (zero when absent, NaN or infinite). */
  function PercentRow(cell: map<(Sample, Rt), Percent>, s: Sample): Rt -> real {
    c => if (s, c) in cell && cell[(s, c)].Pct? then cell[(s, c)].hundredths as real else 0.0
  }

  /** The exact percentages of one row, in hundredths of a percent. */
  function ExactHundredthsRow(m: Matrix, s: Sample, sel: seq<Rt>): Rt -> real
    requires RowTotal(m, s, sel) != 0.0
  {
    var exact := ShareRow(m, s, sel);
    c => 100.0 * exact(c)
  }

  /** Exact percentages in hundredths add up to 10000. */
  lemma {:induction false} ExactHundredthsSum(m: Matrix, s: Sample, sel: seq<Rt>)
    requires RowTotal(m, s, sel) != 0.0
    ensures SumOver(sel, ExactHundredthsRow(m, s, sel)) == 10000.0
  {
    SharesSumToHundred(m, s, sel);
    SumOverScale(sel, ShareRow(m, s, sel), ExactHundredthsRow(m, s, sel), 100.0);
  }

  /** Rounding moves each percentage of a row by at most half a hundredth of a percent. */
  lemma {:induction false} PercentagesNearHundred(m: Matrix, sel: seq<Rt>, s: Sample)
    requires s in m.rows
    requires RowTotal(m, s, sel) != 0.0
    ensures 10000.0 - |sel| as real * 0.5 <= SumOver(sel, PercentRow(Percentages(m, sel), s)) <= 10000.0 + |sel| as real * 0.5
  {
    PercentRowNearExact(m, sel, s);
    NearExactSumsNearHundred(m, s, sel, PercentRow(Percentages(m, sel), s));
  }

  /** Values each within half a unit of the exact hundredths of a row add up to 10000 within half a unit each. */
  lemma NearExactSumsNearHundred(m: Matrix, s: Sample, sel: seq<Rt>, rounded: Rt -> real)
    requires RowTotal(m, s, sel) != 0.0
    requires forall i :: 0 <= i < |sel| ==>
      ExactHundredthsRow(m, s, sel)(sel[i]) - 0.5 <= rounded(sel[i]) <= ExactHundredthsRow(m, s, sel)(sel[i]) + 0.5
    ensures 10000.0 - |sel| as real * 0.5 <= SumOver(sel, rounded) <= 10000.0 + |sel| as real * 0.5
  {
    ExactHundredthsSum(m, s, sel);
    SumOverClose(sel, ExactHundredthsRow(m, s, sel), rounded, 0.5);
  }

  /** Each rounded percentage of a row is within half a hundredth of a percent of the exact one. */
  lemma {:induction false} PercentRowNearExact(m: Matrix, sel: seq<Rt>, s: Sample)
    requires s in m.rows
    requires RowTotal(m, s, sel) != 0.0
    ensures forall i :: 0 <= i < |sel| ==>
      ExactHundredthsRow(m, s, sel)(sel[i]) - 0.5 <= PercentRow(Percentages(m, sel), s)(sel[i]) <= ExactHundredthsRow(m, s, sel)(sel[i]) + 0.5
  {
    forall i | 0 <= i < |sel|
      ensures ExactHundredthsRow(m, s, sel)(sel[i]) - 0.5 <= PercentRow(Percentages(m, sel), s)(sel[i]) <= ExactHundredthsRow(m, s, sel)(sel[i]) + 0.5
    {
      PercentCellNearShare(m, sel, s, sel[i]);
    }
  }

  lemma PercentCellNearShare(m: Matrix, sel: seq<Rt>, s: Sample, c: Rt)
    requires s in m.rows && c in sel
    requires RowTotal(m, s, sel) != 0.0
    ensures var x := ExactHundredthsRow(m, s, sel)(c);
      x - 0.5 <= PercentRow(Percentages(m, sel), s)(c) <= x + 0.5
  {
    var total := RowTotal(m, s, sel);
    var p := Percentage(m.At(s, c), total);
    assert Percentages(m, sel)[(s, c)] == p;
    assert ShareRow(m, s, sel)(c) == Share(m.At(s, c), total);
    assert 100.0 * Share(m.At(s, c), total) == Share(m.At(s, c), total) * 100.0;
  }

  /**
   After rounding, a row with a non-zero total over the window has
   percentages adding up to 100 within half a hundredth of a percent per
   column.
   */
  lemma RoundedPercentagesNearHundred(m: Matrix, start: Rt, end: Rt, reference: Rt, s: Sample)
    requires Valid(m)
    requires reference != 0
    requires s in m.rows
    requires RowTotal(m, s, SelectColumns(m, start, end)) != 0.0
    ensures var sel := SelectColumns(m, start, end);
      var sum := SumOver(sel, PercentRow(Compose(m, start, end, reference).table.cell, s));
      10000.0 - |sel| as real * 0.5 <= sum <= 10000.0 + |sel| as real * 0.5
  {
    var sel := SelectColumns(m, start, end);
    assert Compose(m, start, end, reference).table.cell == Percentages(m, sel);
    PercentagesNearHundred(m, sel, s);
  }
}
