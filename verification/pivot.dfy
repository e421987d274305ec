/**
 The record pivoter: peak records (sample, retention time, area) become a
 sample-by-retention-time matrix. Retention times are first rounded to two
 decimals; rows and columns are the distinct samples and rounded retention
 times, each in ascending order; a cell holds the mean area of the records
 that fall into it (the default aggregation of a pivot table) and zero when
 no record does.
 */
module Pivot {
  import opened Order
  import opened Rounding
  import opened Table

  /** One row of the peak export: sample name, retention time in minutes, peak area. */
  datatype Record = Record(sample: Sample, rt: real, area: real)

  /** The record's retention time rounded to hundredths of a minute. */
  function RoundedRt(r: Record): Rt {
    Round2(r.rt)
  }

  /** Whether a record falls into the cell of sample `s` and rounded retention time `c`. */
  predicate InCell(r: Record, s: Sample, c: Rt) {
    r.sample == s && RoundedRt(r) == c
  }

  /** The number of records that fall into a cell. */
  function MatchCount(records: seq<Record>, s: Sample, c: Rt): nat {
    if |records| == 0 then 0
    else MatchCount(records[..|records| - 1], s, c) + (if InCell(records[|records| - 1], s, c) then 1 else 0)
  }

  /** The total area of the records that fall into a cell. */
  function MatchSum(records: seq<Record>, s: Sample, c: Rt): real {
    if |records| == 0 then 0.0
    else
      var last := records[|records| - 1];
      MatchSum(records[..|records| - 1], s, c) + (if InCell(last, s, c) then last.area else 0.0)
  }

  /** The value a cell must hold: the mean area of its records, or zero if it has none. */
  function CellMean(records: seq<Record>, s: Sample, c: Rt): real {
    var n := MatchCount(records, s, c);
    if n == 0 then 0.0 else MatchSum(records, s, c) / n as real
  }

  /** The sample name of every record, in record order. */
  function Samples(records: seq<Record>): (ss: seq<Sample>)
    ensures |ss| == |records|
    ensures forall i :: 0 <= i < |records| ==> ss[i] == records[i].sample
  {
    seq(|records|, i requires 0 <= i < |records| => records[i].sample)
  }

  /** The rounded retention time of every record, in record order. */
  function RoundedRts(records: seq<Record>): (rts: seq<Rt>)
    ensures |rts| == |records|
    ensures forall i :: 0 <= i < |records| ==> rts[i] == RoundedRt(records[i])
  {
    seq(|records|, i requires 0 <= i < |records| => RoundedRt(records[i]))
  }

  /** The distinct sample names of the records, in ascending order. */
  function SampleIndex(records: seq<Record>): (rows: seq<Sample>)
    ensures StrictlySorted(rows, StringLess)
    ensures forall s :: s in rows <==> exists i :: 0 <= i < |records| && records[i].sample == s
  {
    StringLessIsStrictTotalOrder();
    var ss := Samples(records);
    var rows := SortedKeys(ss, StringLess);
    assert forall s :: s in ss <==> exists i :: 0 <= i < |records| && records[i].sample == s by {
      forall s | s in ss ensures exists i :: 0 <= i < |records| && records[i].sample == s {
        var i :| 0 <= i < |ss| && ss[i] == s;
      }
    }
    rows
  }

  /** The distinct rounded retention times of the records, in ascending order. */
  function RtIndex(records: seq<Record>): (cols: seq<Rt>)
    ensures StrictlySorted(cols, RtLess)
    ensures forall c :: c in cols <==> exists i :: 0 <= i < |records| && RoundedRt(records[i]) == c
  {
    RtLessIsStrictTotalOrder();
    var rts := RoundedRts(records);
    var cols := SortedKeys(rts, RtLess);
    assert forall c :: c in rts <==> exists i :: 0 <= i < |records| && RoundedRt(records[i]) == c by {
      forall c | c in rts ensures exists i :: 0 <= i < |records| && RoundedRt(records[i]) == c {
        var i :| 0 <= i < |rts| && rts[i] == c;
      }
    }
    cols
  }

  /**
   One pass over the records accumulating, per occupied cell, the total
   area and the number of records.
   */
  function Tally(records: seq<Record>): map<(Sample, Rt), (real, nat)> {
    if |records| == 0 then map[]
    else
      var t := Tally(records[..|records| - 1]);
      var last := records[|records| - 1];
      var k := (last.sample, RoundedRt(last));
      if k in t then t[k := (t[k].0 + last.area, t[k].1 + 1)]
      else t[k := (last.area, 1)]
  }

  /** A cell no record falls into has no area. */
  lemma {:induction false} CellSumVanishes(records: seq<Record>, s: Sample, c: Rt)
    requires MatchCount(records, s, c) == 0
    ensures MatchSum(records, s, c) == 0.0
  {
    if |records| > 0 {
      CellSumVanishes(records[..|records| - 1], s, c);
    }
  }

  /** The accumulated tally holds exactly the occupied cells, with their area totals and record counts. */
  lemma {:induction false} TallyMatches(records: seq<Record>)
    ensures forall s, c :: (s, c) in Tally(records) <==> MatchCount(records, s, c) > 0
    ensures forall s, c :: (s, c) in Tally(records) ==>
      Tally(records)[(s, c)] == (MatchSum(records, s, c), MatchCount(records, s, c))
  {
    if |records| > 0 {
      var prefix := records[..|records| - 1];
      TallyMatches(prefix);
      var last := records[|records| - 1];
      forall s, c | (s, c) in Tally(records)
        ensures Tally(records)[(s, c)] == (MatchSum(records, s, c), MatchCount(records, s, c))
      {
        var t := Tally(prefix);
        if (s, c) != (last.sample, RoundedRt(last)) {
          assert !InCell(last, s, c);
          assert Tally(records)[(s, c)] == t[(s, c)];
        } else {
          assert InCell(last, s, c);
          if (s, c) in t {
            assert Tally(records)[(s, c)] == (t[(s, c)].0 + last.area, t[(s, c)].1 + 1);
          } else {
            assert MatchCount(prefix, s, c) == 0;
            assert MatchSum(prefix, s, c) == 0.0 by { CellSumVanishes(prefix, s, c); }
          }
        }
      }
    }
  }

  /** The mean a tally entry stands for; an absent cell is filled with zero. */
  function TallyMean(t: map<(Sample, Rt), (real, nat)>, k: (Sample, Rt)): real {
    if k in t && t[k].1 != 0 then t[k].0 / t[k].1 as real else 0.0
  }

  /** The tally's mean for a cell is the mean area of the records in it, zero when there are none. */
  lemma TallyMeanIsCellMean(records: seq<Record>, s: Sample, c: Rt)
    ensures TallyMean(Tally(records), (s, c)) == CellMean(records, s, c)
  {
    TallyMatches(records);
    if MatchCount(records, s, c) == 0 {
      CellSumVanishes(records, s, c);
    }
  }

  /** The pivot of the records (rounding, pivot_table, then zero-filling). */
  function PivotRecords(records: seq<Record>): (m: Matrix)
    ensures Valid(m)
    ensures StrictlySorted(m.rows, StringLess)
    ensures forall s :: s in m.rows <==> exists i :: 0 <= i < |records| && records[i].sample == s
    ensures forall c :: c in m.cols <==> exists i :: 0 <= i < |records| && RoundedRt(records[i]) == c
    ensures forall s, c :: s in m.rows && c in m.cols ==> m.At(s, c) == CellMean(records, s, c)
    ensures forall s, c :: s in m.rows && c in m.cols && MatchCount(records, s, c) == 0 ==> m.At(s, c) == 0.0
  {
    var rows := SampleIndex(records);
    var cols := RtIndex(records);
    var t := Tally(records);
    var m := Matrix(rows, cols, map k | k in Grid(rows, cols) :: TallyMean(t, k));
    assert Distinct(rows) by {
      StringLessIsStrictTotalOrder();
      SortedIsDistinct(rows, StringLess);
    }
    forall s, c | s in rows && c in cols ensures m.At(s, c) == CellMean(records, s, c) {
      TallyMeanIsCellMean(records, s, c);
    }
    m
  }
}
