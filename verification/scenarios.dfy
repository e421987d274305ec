/**
 Worked examples of the merge engine and the composition transform. The merge
 examples hold for every comparison `close` that meets `WithinTolerance`, so
 they hold for the program's floating-point test whichever way it decides
 pairs exactly two hundredths apart; `DecimalClose` shows such a comparison
 exists.
 */
module Scenarios {
  import opened Order
  import opened Table
  import opened Merge
  import opened Composition
  import opened Sums
  import opened Rounding

  /** The tolerance read exactly: at most two hundredths apart. */
  function DecimalClose(a: Rt, b: Rt): bool {
    -2 <= a - b <= 2
  }

  /** The exact reading of the tolerance meets what is certain about the program's comparison. */
  lemma DecimalCloseIsWithinTolerance()
    ensures WithinTolerance(DecimalClose)
  {
  }

  /** Two samples and the columns 3.25 and 3.26 min. */
  function TwoColumns(s1a: real, s2a: real, s1b: real, s2b: real): (m: Matrix)
    ensures Valid(m)
    ensures m.rows == ["s1", "s2"] && m.cols == [325, 326]
    ensures m.At("s1", 325) == s1a && m.At("s2", 325) == s2a
    ensures m.At("s1", 326) == s1b && m.At("s2", 326) == s2b
  {
    var m := Matrix(["s1", "s2"], [325, 326],
      map[("s1", 325) := s1a, ("s2", 325) := s2a, ("s1", 326) := s1b, ("s2", 326) := s2b]);
    assert "s1" != "s2" by { assert "s1"[1] != "s2"[1]; }
    m
  }

  /** Over the columns 3.25 and 3.26, the pass merges them when the pair qualifies. */
  lemma AdjacentPairPlanMerges(m: Matrix, close: Closeness)
    requires WithinTolerance(close)
    requires m.cols == [325, 326]
    requires SomeRowHasZero(m, 325, 326)
    ensures MergePlan(m, close).merges == [(325, 326)]
  {
    assert close(325, 326);
    var st0 := Plan({}, []);
    var st2 := Plan({325, 326}, [(325, 326)]);
    assert Step(m, close, st0, 325, 325) == st0;
    assert Step(m, close, st0, 325, 326) == st2;
    assert ScanRow(m, close, 0, 2, st2) == st2;
    assert ScanRow(m, close, 0, 1, st0) == st2;
    assert ScanRow(m, close, 0, 0, st0) == st2;
    assert Step(m, close, st2, 326, 325) == st2;
    assert Step(m, close, st2, 326, 326) == st2;
    assert ScanRow(m, close, 1, 2, st2) == st2;
    assert ScanRow(m, close, 1, 1, st2) == st2;
    assert ScanRow(m, close, 1, 0, st2) == st2;
    assert ScanFrom(m, close, 2, st2) == st2;
    assert ScanFrom(m, close, 1, st2) == st2;
    assert ScanFrom(m, close, 0, st0) == st2;
  }

  /** Over the columns 3.25 and 3.26, the pass merges nothing when no row has a zero. */
  lemma AdjacentPairPlanEmpty(m: Matrix, close: Closeness)
    requires m.cols == [325, 326]
    requires !SomeRowHasZero(m, 325, 326)
    ensures MergePlan(m, close).merges == []
  {
    var st0 := Plan({}, []);
    assert !SomeRowHasZero(m, 326, 325);
    assert Step(m, close, st0, 325, 325) == st0;
    assert Step(m, close, st0, 325, 326) == st0;
    assert ScanRow(m, close, 0, 2, st0) == st0;
    assert ScanRow(m, close, 0, 1, st0) == st0;
    assert ScanRow(m, close, 0, 0, st0) == st0;
    assert Step(m, close, st0, 326, 325) == st0;
    assert Step(m, close, st0, 326, 326) == st0;
    assert ScanRow(m, close, 1, 2, st0) == st0;
    assert ScanRow(m, close, 1, 1, st0) == st0;
    assert ScanRow(m, close, 1, 0, st0) == st0;
    assert ScanFrom(m, close, 2, st0) == st0;
    assert ScanFrom(m, close, 1, st0) == st0;
    assert ScanFrom(m, close, 0, st0) == st0;
  }

  /** A sequence of one element that contains `x` is `[x]`. */
  lemma SingletonIs(xs: seq<Rt>, x: Rt)
    requires |xs| == 1 && x in xs
    ensures xs == [x]
  {
  }

  /** When some row has a zero, the columns 3.25 and 3.26 merge into 3.26, holding their sums. */
  lemma AdjacentPairMerges(m: Matrix, close: Closeness)
    requires WithinTolerance(close)
    requires Valid(m) && m.cols == [325, 326]
    requires SomeRowHasZero(m, 325, 326)
    ensures var r := MergeColumns(m, close);
      r.cols == [326] && forall s :: s in m.rows ==> r.At(s, 326) == m.At(s, 325) + m.At(s, 326)
  {
    AdjacentPairPlanMerges(m, close);
    var r := MergeColumns(m, close);
    var ms := MergePlan(m, close).merges;
    assert 326 in r.cols by { assert (325, 326) in ms; }
    assert |r.cols| == 1;
    SingletonIs(r.cols, 326);
    forall s | s in m.rows ensures r.At(s, 326) == m.At(s, 325) + m.At(s, 326) {
      assert (325, 326) in ms;
    }
  }

  /** When no row has a zero, the columns 3.25 and 3.26 stay apart, unchanged. */
  lemma AdjacentPairStays(m: Matrix, close: Closeness)
    requires Valid(m) && m.cols == [325, 326]
    requires !SomeRowHasZero(m, 325, 326)
    ensures var r := MergeColumns(m, close);
      r.cols == [325, 326] && forall s, c :: s in m.rows && c in m.cols ==> r.At(s, c) == m.At(s, c)
  {
    AdjacentPairPlanEmpty(m, close);
    var r := MergeColumns(m, close);
    assert MergePlan(m, close).consumed == {};
    assert |r.cols| == 2;
    assert 325 in r.cols && 326 in r.cols;
    RtLessIsStrictTotalOrder();
    SortedUnique(r.cols, [325, 326], RtLess);
  }

  /** Columns 3.25 = [x, 0] and 3.26 = [0, y] merge into 3.26 = [x, y]. */
  lemma ComplementaryPair(close: Closeness, x: real, y: real)
    requires WithinTolerance(close)
    ensures var r := MergeColumns(TwoColumns(x, 0.0, 0.0, y), close);
      r.cols == [326] && r.At("s1", 326) == x && r.At("s2", 326) == y
  {
    var m := TwoColumns(x, 0.0, 0.0, y);
    assert "s1" in m.rows && "s2" in m.rows;
    AdjacentPairMerges(m, close);
  }

  /**
   Columns 3.25 = [x, y] and 3.26 = [0, z] merge into 3.26 = [x, y + z]
   although the second sample has both peaks, because one row with a zero
   suffices.
   */
  lemma PairWithOneZeroRow(close: Closeness, x: real, y: real, z: real)
    requires WithinTolerance(close)
    ensures var r := MergeColumns(TwoColumns(x, y, 0.0, z), close);
      r.cols == [326] && r.At("s1", 326) == x && r.At("s2", 326) == y + z
  {
    var m := TwoColumns(x, y, 0.0, z);
    assert "s1" in m.rows && "s2" in m.rows;
    AdjacentPairMerges(m, close);
  }

  /** Columns 3.25 = [a, b] and 3.26 = [c, d] with no zero stay apart, unchanged. */
  lemma PairWithoutZeros(close: Closeness, a: real, b: real, c: real, d: real)
    requires a != 0.0 && b != 0.0 && c != 0.0 && d != 0.0
    ensures var r := MergeColumns(TwoColumns(a, b, c, d), close);
      r.cols == [325, 326] && r.At("s1", 325) == a && r.At("s2", 325) == b
      && r.At("s1", 326) == c && r.At("s2", 326) == d
  {
    var m := TwoColumns(a, b, c, d);
    assert "s1" in m.rows && "s2" in m.rows;
    assert 325 in m.cols && 326 in m.cols;
    AdjacentPairStays(m, close);
  }

  /**
   The single pass over columns 3.25, 3.26 and 3.27 with a zero at 3.26 merges
   only the first qualifying pair, 3.25 with 3.26.
   */
  lemma ThreeColumnPlan(m: Matrix, close: Closeness)
    requires WithinTolerance(close)
    requires m.cols == [325, 326, 327]
    requires "s1" in m.rows && m.At("s1", 326) == 0.0
    ensures MergePlan(m, close) == Plan({325, 326}, [(325, 326)])
  {
    assert close(325, 326);
    var st0 := Plan({}, []);
    var st1 := Plan({325, 326}, [(325, 326)]);
    assert Step(m, close, st0, 325, 325) == st0;
    assert Step(m, close, st0, 325, 326) == st1;
    assert Step(m, close, st1, 325, 327) == st1;
    assert ScanRow(m, close, 0, 3, st1) == st1;
    assert ScanRow(m, close, 0, 2, st1) == st1;
    assert ScanRow(m, close, 0, 1, st0) == st1;
    assert ScanRow(m, close, 0, 0, st0) == st1;
    assert Step(m, close, st1, 326, 325) == st1;
    assert Step(m, close, st1, 326, 326) == st1;
    assert Step(m, close, st1, 326, 327) == st1;
    assert ScanRow(m, close, 1, 3, st1) == st1;
    assert ScanRow(m, close, 1, 2, st1) == st1;
    assert ScanRow(m, close, 1, 1, st1) == st1;
    assert ScanRow(m, close, 1, 0, st1) == st1;
    assert Step(m, close, st1, 327, 325) == st1;
    assert Step(m, close, st1, 327, 326) == st1;
    assert Step(m, close, st1, 327, 327) == st1;
    assert ScanRow(m, close, 2, 3, st1) == st1;
    assert ScanRow(m, close, 2, 2, st1) == st1;
    assert ScanRow(m, close, 2, 1, st1) == st1;
    assert ScanRow(m, close, 2, 0, st1) == st1;
    assert ScanFrom(m, close, 3, st1) == st1;
    assert ScanFrom(m, close, 2, st1) == st1;
    assert ScanFrom(m, close, 1, st1) == st1;
    assert ScanFrom(m, close, 0, st0) == st1;
  }

  /** After the first pass over 3.25, 3.26 and an empty 3.27, which merges only 3.25 into 3.26, 3.26 and 3.27 remain side by side. */
  lemma FirstPassOfThree(m: Matrix, close: Closeness)
    requires WithinTolerance(close)
    requires Valid(m) && m.cols == [325, 326, 327]
    requires "s1" in m.rows && m.At("s1", 326) == 0.0 && m.At("s1", 327) == 0.0
    ensures var r := MergeColumns(m, close);
      "s1" in r.rows && 326 in r.cols && 327 in r.cols && r.At("s1", 327) == 0.0
  {
    ThreeColumnPlan(m, close);
    var pl := MergePlan(m, close);
    assert pl.consumed == {325, 326};
    assert 327 !in pl.consumed;
    assert (325, 326) in pl.merges;
  }

  /** A pass over a matrix holding an empty 3.27 next to 3.26 merges at least once. */
  lemma NextPassMerges(r: Matrix, close: Closeness)
    requires WithinTolerance(close)
    requires Valid(r)
    requires "s1" in r.rows && 326 in r.cols && 327 in r.cols && r.At("s1", 327) == 0.0
    ensures |MergeColumns(r, close).cols| < |r.cols|
  {
    assert close(326, 327);
    assert Eligible(r, close, 326, 327);
    var pl := MergePlan(r, close);
    assert 326 in pl.consumed || 327 in pl.consumed;
    assert |pl.merges| > 0;
  }

  /** On one sample with empty columns 3.26 and 3.27, the second pass changes the first pass's output. */
  lemma SecondPassMerges(m: Matrix, close: Closeness)
    requires WithinTolerance(close)
    requires Valid(m) && m.rows == ["s1"] && m.cols == [325, 326, 327]
    requires m.At("s1", 326) == 0.0 && m.At("s1", 327) == 0.0
    ensures MergePlan(m, close).merges == [(325, 326)]
    ensures MergeColumns(MergeColumns(m, close), close) != MergeColumns(m, close)
  {
    assert "s1" in m.rows;
    ThreeColumnPlan(m, close);
    FirstPassOfThree(m, close);
    NextPassMerges(MergeColumns(m, close), close);
  }

  /** One sample with area `a` at 3.25 min and empty columns 3.26 and 3.27. */
  function ThreeColumns(a: real): (m: Matrix)
    ensures Valid(m)
    ensures m.rows == ["s1"] && m.cols == [325, 326, 327]
    ensures m.At("s1", 325) == a && m.At("s1", 326) == 0.0 && m.At("s1", 327) == 0.0
  {
    Matrix(["s1"], [325, 326, 327], map[("s1", 325) := a, ("s1", 326) := 0.0, ("s1", 327) := 0.0])
  }

  /**
   A matrix that a second merge pass changes again: one sample with area `a`
   at 3.25 min and empty columns 3.26 and 3.27. The first pass merges 3.25
   into 3.26 only, and the second merges 3.26 with 3.27, so the merge is a
   single pass and not a fixed point.
   */
  lemma SecondPassWitness(close: Closeness, a: real)
    requires WithinTolerance(close)
    ensures var m := ThreeColumns(a);
      && MergePlan(m, close).merges == [(325, 326)]
      && MergeColumns(MergeColumns(m, close), close) != MergeColumns(m, close)
  {
    SecondPassMerges(ThreeColumns(a), close);
  }

  /** A single sample with peaks at 1.00, 2.00 and 5.00 min of areas 10, 20 and 70. */
  function CompositionExample(): (m: Matrix)
    ensures Valid(m)
    ensures m.rows == ["s"] && m.cols == [100, 200, 500]
    ensures m.At("s", 100) == 10.0 && m.At("s", 200) == 20.0 && m.At("s", 500) == 70.0
  {
    Matrix(["s"], [100, 200, 500], map[("s", 100) := 10.0, ("s", 200) := 20.0, ("s", 500) := 70.0])
  }

  /** The window 1.00 to 5.00 min keeps all three columns of the example. */
  lemma ExampleWindow(m: Matrix)
    requires StrictlySorted(m.cols, RtLess) && m.cols == [100, 200, 500]
    ensures SelectColumns(m, 100, 500) == [100, 200, 500]
  {
    var sel := SelectColumns(m, 100, 500);
    assert 100 in m.cols && 200 in m.cols && 500 in m.cols;
    RtLessIsStrictTotalOrder();
    SortedUnique(sel, [100, 200, 500], RtLess);
  }

  /** The example's RRT labels against the reference 2.00 min are 0.5, 1.0 and 2.5. */
  lemma ExampleLabels()
    ensures Labels([100, 200, 500], 200) == [(100, 50), (200, 100), (500, 250)]
  {
    var l := Labels([100, 200, 500], 200);
    assert l[0] == (100, 50) by { Round2OfHundredths(50); }
    assert l[1] == (200, 100) by { Round2OfHundredths(100); }
    assert l[2] == (500, 250) by { Round2OfHundredths(250); }
  }

  /** Areas 10, 20 and 70 add up to 100. */
  lemma ExampleTotal(m: Matrix)
    requires m.At("s", 100) == 10.0 && m.At("s", 200) == 20.0 && m.At("s", 500) == 70.0
    ensures RowTotal(m, "s", [100, 200, 500]) == 100.0
  {
    var sel: seq<Rt> := [100, 200, 500];
    assert SumOver(sel[2..], m.Row("s")) == 70.0;
    assert SumOver(sel[1..], m.Row("s")) == 90.0;
  }

  /** Areas 10, 20 and 70 over the whole window are 10.00 %, 20.00 % and 70.00 %. */
  lemma ExampleCellValues(m: Matrix)
    requires "s" in m.rows
    requires m.At("s", 100) == 10.0 && m.At("s", 200) == 20.0 && m.At("s", 500) == 70.0
    ensures var cell := Percentages(m, [100, 200, 500]);
      cell[("s", 100)] == Pct(1000) && cell[("s", 200)] == Pct(2000) && cell[("s", 500)] == Pct(7000)
  {
    ExampleTotal(m);
    assert Share(10.0, 100.0) == 10.0 && Share(20.0, 100.0) == 20.0 && Share(70.0, 100.0) == 70.0;
    Round2OfHundredths(1000);
    Round2OfHundredths(2000);
    Round2OfHundredths(7000);
  }

  /**
   The single-sample example over the window 1.00 to 5.00 min with reference
   2.00 min: all three columns are kept, labelled with RRT 0.5, 1.0 and 2.5,
   and hold 10.00 %, 20.00 % and 70.00 %.
   */
  lemma CompositionScenario()
    ensures var r := Compose(CompositionExample(), 100, 500, 200);
      && r.Table? && r.table.rows == ["s"] && r.table.labels == [(100, 50), (200, 100), (500, 250)]
      && r.table.cell[("s", 100)] == Pct(1000) && r.table.cell[("s", 200)] == Pct(2000) && r.table.cell[("s", 500)] == Pct(7000)
  {
    var m := CompositionExample();
    ExampleWindow(m);
    ExampleLabels();
    ExampleCellValues(m);
  }
}
