# LC-Data Area/RT merge and SP3 composition, in Dafny

This project models the data core of LC-Data. LC-Data turns a liquid-chromatography peak export into two tables:

- **The Area/RT table.** Each peak record (sample name, retention time, area) has its retention time (RT) rounded to two decimals. The records are then pivoted into a sample-by-RT matrix. Empty cells are filled with zero. In one pass over all pairs of columns, two columns at most 0.02 min apart, neither of them already merged, are merged when some sample has a zero in one of the two columns.
- **The SP3 table.** Inside a chosen RT window, every cell becomes a percentage of its row's total over the window (LCAP), rounded to two decimals. Every column is labelled with its relative retention time (RRT): its RT divided by a reference RT, rounded to two decimals.

The Streamlit app (`app.py`) and the script (`LCscript.py`) hold the same core code.

## Modelling choices

- **Units.**
  - Retention times are `int` counts of hundredths of a minute, so 3.25 min is `325`.
  - Areas are `real`.
  - Percentages and RRTs are `int` counts of hundredths.
- **Rounding.** Two-decimal rounding is half-to-even on exact reals (module `Rounding`).
- **Matrix.** A `Matrix` has rows (sample names), columns in ascending order, and one value per cell (module `Table`).
- **Merge tolerance.** The program compares `abs(float(rt1) - float(rt2)) <= 0.02` on binary floating point. The model takes this comparison as the parameter `close`. `Merge.WithinTolerance` states what is certain about it:
  - it is symmetric;
  - 0 and 1 hundredth apart are close;
  - 3 or more hundredths apart are not close.
- **The merge pass.** It is modelled as one scan over all ordered pairs of columns, outer loop then inner loop (`Merge.ScanFrom`, `Merge.ScanRow`). The scan threads a `Plan`: the consumed set and the merges made so far. The output matrix is then assembled from the plan (`Merge.Assemble`).
- **Errors.**
  - In a row whose total over the window is zero, the program's division gives NaN for a zero cell (`NaN`) and an infinity with the cell's sign for a non-zero cell (`Infinite`).
  - A zero reference RT with a non-empty window gives the `ZeroReference` outcome. This is the program's division by zero.
  - The check that the reference lies inside the window only shows a message and never stops the transform (`app.py:160-161`). It is the predicate `Composition.ReferenceInWindow` and has no effect on the result.

Three behaviours of the code, stated plainly:

- **Aggregation.** `pivot_table` is called without `aggfunc` (`app.py:89-91`), so several records in one (sample, rounded RT) cell are **averaged**, not summed (`Pivot.CellMean`).
- **Merge condition.** The help text (`app.py:54`) and the comment at `app.py:107` speak of "each row", but the test at `app.py:109` is `condition.any()`: **some** row has a zero in one of the two columns. `Scenarios.PairWithOneZeroRow` shows a pair merging although one sample has both peaks.
- **A single pass.** The merge pass is not a fixed point: `Scenarios.SecondPassWitness` exhibits a matrix that a second pass changes again. What does hold is stated by `Merge.MergePlan`: no two unconsumed columns of the input are still eligible.

## Model

| member | source | states |
|---|---|---|
| Rounding.RoundHalfEven | app.py:85 | the result is within one half of the input, and an exact tie goes to the even neighbour |
| Rounding.Round2 | app.py:85 | a value rounded to two decimals, as hundredths, is within half a hundredth of the value |
| Rounding.Round2OfHundredths | app.py:173 | rounding a value that already has two decimals gives back its hundredths |
| Pivot.RoundedRt | app.py:84-85 | a record's RT is taken as its value rounded to two decimals, in hundredths |
| Order.SortedKeys | app.py:89-91 | the pivot index holds exactly the distinct keys given, strictly ascending |
| Pivot.SampleIndex | app.py:89-91 | the rows are exactly the sample names that occur in the records, in strictly ascending code-point order |
| Pivot.RtIndex | app.py:85-91 | the columns are exactly the rounded RTs that occur in the records, strictly ascending |
| Pivot.Tally | app.py:89-91 | one pass over the records accumulates, per (sample, rounded RT) cell, the area sum and the record count |
| Pivot.TallyMatches | app.py:89-91 | the one-pass tally has an entry exactly for the occupied cells, holding their area sum and record count as defined independently by `MatchSum` and `MatchCount` |
| Pivot.TallyMeanIsCellMean | app.py:89-94 | the tally's value for a cell is the mean area of its records, and zero when it has none |
| Pivot.PivotRecords | app.py:84-94 | the pivot is a well-formed matrix; its rows and columns are exactly the occurring samples and rounded RTs; every cell is the mean area of its records, and an empty cell is zero |
| Merge.SomeRowHasZero | app.py:108-109 | the `.any()` test: some sample has a zero in the first or the second column |
| Merge.Eligible | app.py:103-109 | two columns qualify for merging when they are different, within the tolerance, and some sample has a zero in one of them |
| Merge.Step | app.py:103-114 | a visit merges the pair exactly when both columns are unconsumed and the pair is eligible, and it only grows the consumed set |
| Merge.StepKeepsConsistent | app.py:103-114 | a visit keeps the consumed set equal to the merged columns, keeps every merge eligible and disjoint from the others, and settles the visited pair |
| Merge.StepKeepsFirst | app.py:101-114 | a merge made at a visit whose earlier pairs are all settled is the first pair in scan order still available |
| Merge.StepAdvances | app.py:101-114 | one visit keeps the plan consistent and first-in-scan-order, and settles every pair up to and including the visited one |
| Merge.ScanRow | app.py:102-114 | the inner loop only adds columns to the consumed set and only appends merges to those already made |
| Merge.ScanFrom | app.py:101-117 | the outer loop only adds columns to the consumed set and only appends merges to those already made |
| Merge.ScanRowSettles | app.py:102-117 | the inner loop keeps the plan consistent, and afterwards every pair with that outer column is consumed or ineligible |
| Merge.ScanFromSettles | app.py:101-117 | the outer loop keeps the plan consistent and leaves no pair both unconsumed and eligible |
| Merge.ScanRowFirst | app.py:102-114 | the inner loop makes each of its merges at the first pair in scan order still available |
| Merge.ScanFromFirst | app.py:101-117 | the outer loop makes each of its merges at the first pair in scan order still available |
| Merge.MergePlan | app.py:98-117 | every merge joins two eligible input columns; no column is merged twice; the consumed set is exactly the merged columns; no two unconsumed columns remain that would qualify; each merge is the first pair, in outer-then-inner scan order, whose columns are both unconsumed by the earlier merges and which qualifies |
| Merge.ScanOrderMergesUnique | app.py:101-114 | two merge sequences that are eligible, disjoint, first in scan order and maximal are equal |
| Merge.MergePlanCharacterised | app.py:98-117 | a merge sequence is eligible, disjoint, first in scan order and maximal exactly when it is the sequence of merges the pass makes |
| Merge.Assemble | app.py:119-128 | the output keeps the input rows and, in ascending order, the columns never consumed and the merge keys, each cell holding the merged value |
| Merge.MergedValue | app.py:111-112 | a cell of a merged column holds the sum of the two sources of the last merge keyed by that column; a cell of any other column keeps its input value (app.py:123-125) |
| Merge.MergeColumns | app.py:96-128 | the output is well formed with the same rows; it loses one column per merge; it keeps every unconsumed column unchanged; each merge's larger RT holds the row-wise sum of the two sources; the smaller RT is gone; nothing else appears; every sample's total area over the output columns equals its total over the input columns |
| Merge.AssembleShape | app.py:119-128 | the output is well formed with the same rows; its columns are exactly the input columns never consumed or keyed by a merge, in ascending order; there is one column fewer per merge |
| Merge.MergedValueOf | app.py:111-112 | a column keyed by a merge holds, in every row, the sum of that merge's two sources; a column no merge is keyed by keeps its input value |
| Merge.DroppedAreLos | app.py:114-120 | the columns dropped from the output are exactly the smaller RTs of the merges |
| Merge.LosCount | app.py:114-120 | disjoint merges drop pairwise different columns, one per merge |
| Merge.ContributionTotal | app.py:111-114 | moving each merge's smaller column onto its larger one leaves every row total unchanged |
| Composition.SelectColumns | app.py:165-166 | the selected columns are exactly the matrix's columns with start <= RT <= end, still ascending |
| Composition.Share | app.py:169-171 | a cell's exact share of its row total, times 100 |
| Composition.Percentage | app.py:169-173 | for a zero row total a zero cell is NaN and a non-zero cell an infinity of its sign; otherwise the cell is within half a hundredth of the exact percentage |
| Composition.RelativeRt | app.py:176-177 | the RRT in hundredths is within half a hundredth of RT / reference |
| Composition.Labels | app.py:176-183 | one (RT, RRT) label per selected column, in column order |
| Composition.Percentages | app.py:169-173 | there is a cell for every row and selected column, holding its rounded share of the row total over the window |
| Composition.Compose | app.py:163-183 | the transform fails exactly when the reference is zero and the window is not empty; otherwise it keeps the rows, labels every column in the window with its RT and RRT, and fills each cell with its percentage of the row's window total |
| Composition.ReferenceInWindow | app.py:160-161 | the advisory test that the reference RT lies inside the window; the transform's result does not depend on it |
| Composition.SharesSumToHundred | app.py:168-171 | before rounding, a row's percentages over the window add up to exactly 100 |
| Composition.PercentagesNearHundred | app.py:168-173 | after rounding, a row's percentages add up to 100 within half a hundredth of a percent per column |
| Composition.RoundedPercentagesNearHundred | app.py:163-173 | in the SP3 table, a row with a non-zero window total has percentages adding up to 100 within half a hundredth per column |
| Pipeline.AreaRtTable | LCscript.py:84-128 | the merged Area/RT table is well formed; its rows are exactly the samples of the records; its columns are rounded RTs of records; each sample's total equals the sum of its per-cell mean areas |
| Scenarios.DecimalCloseIsWithinTolerance | app.py:106 | reading the tolerance as at most two hundredths meets what is certain about the program's comparison |
| Scenarios.AdjacentPairPlanMerges | app.py:101-114 | on columns 3.25 and 3.26 with a zero in some row, the pass makes exactly one merge, of 3.25 with 3.26 |
| Scenarios.AdjacentPairPlanEmpty | app.py:108-109 | on columns 3.25 and 3.26 with no zero in any row, the pass makes no merge |
| Scenarios.AdjacentPairMerges | app.py:106-114 | columns 3.25 and 3.26 with a zero in some row become the single column 3.26 holding their sums |
| Scenarios.AdjacentPairStays | app.py:108-109 | columns 3.25 and 3.26 with no zero in any row are both kept, unchanged |
| Scenarios.ComplementaryPair | app.py:101-128 | 3.25 = [x, 0] and 3.26 = [0, y] merge into the single column 3.26 = [x, y] |
| Scenarios.PairWithOneZeroRow | app.py:108-112 | 3.25 = [x, y] and 3.26 = [0, z] merge into the single column 3.26 = [x, y + z], although the second sample has both peaks |
| Scenarios.PairWithoutZeros | app.py:108-109 | 3.25 and 3.26 with no zero anywhere stay as two columns with their values |
| Scenarios.ThreeColumnPlan | LCscript.py:101-117 | on 3.25, 3.26, 3.27 with a zero at 3.26, the pass merges 3.25 with 3.26 and nothing else, although 3.26 and 3.27 also qualify |
| Scenarios.SecondPassMerges | LCscript.py:96-128 | for any comparison meeting the tolerance, one sample with empty 3.26 and 3.27 beside 3.25: the first pass merges only 3.25 with 3.26, and a second pass changes its output |
| Scenarios.SecondPassWitness | LCscript.py:96-128 | one sample with a lone peak at 3.25 and empty 3.26 and 3.27: the first pass merges only 3.25 with 3.26, and merging its output again changes it, so the pass is not a fixed point |
| Scenarios.ExampleLabels | app.py:176-177 | RTs 1.00, 2.00, 5.00 min against reference 2.00 min have RRTs 0.5, 1.0, 2.5 |
| Scenarios.ExampleCellValues | app.py:168-173 | areas 10, 20, 70 over the whole window become 10.00 %, 20.00 %, 70.00 % |
| Scenarios.CompositionScenario | app.py:163-183 | one sample with areas 10, 20, 70 at 1.00, 2.00, 5.00 min, window 1.00 to 5.00 min, reference 2.00 min: all three columns are kept, labelled with RRTs 0.5, 1.0, 2.5, holding 10.00 %, 20.00 %, 70.00 % |

## Left out

- The Streamlit user interface, file upload, `read_csv` parsing of the tab-separated export, Excel export and its cache (`convert_df_to_excel`): these are I/O. Records arrive as a sequence of `Pivot.Record`.
- The RT window and the reference come from a slider and a select box offering only existing columns. The model accepts any integers for them.
- The `ValueError` branch of the merge scan (`app.py:115-117`): column labels are always numbers here, so converting them to floats cannot fail.
- Binary floating point: RTs, areas, shares and ratios are exact reals. Rounding ties are decided on exact values, not on their binary approximations.
- Merge.MergePlan: the 0.02 comparison is the parameter `close`. The contracts of the merge module hold for every comparison, and the worked examples in `Scenarios` hold for every comparison meeting `Merge.WithinTolerance`. Nothing pins down pairs exactly two hundredths apart, because a float comparison there depends on the binary representation of the two RTs.
- Composition.RoundedPercentagesNearHundred: bounds the rounded row sum within half a hundredth per column rather than stating an exact 100.00, because independent rounding of the cells does not give more.
- Records with missing sample, RT or area values, which `pivot_table` drops: every record here has all three fields.
- Non-numeric column labels, which the window selection skips (`app.py:165`): every label is a number here.
