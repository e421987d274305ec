/**
 The retention-time merge engine. One pass over all ordered pairs of the
 pivot's columns (in ascending order, outer loop then inner loop) keeps a set
 of consumed columns. A pair of distinct, unconsumed columns that are close
 enough and have a zero in either column in at least one row is merged: a
 column keyed by the larger retention time receives the row-wise sum, and both
 sources become consumed. The output holds the merged columns and every
 column never consumed, in ascending order.

 The pass is recorded as a plan (the consumed set and the merges in the order
 they happened) and the output matrix is assembled from the plan.
 */
module Merge {
  import opened Order
  import opened Sums
  import opened Table

  /**
   Whether two retention times are within the merge tolerance. The program
   compares `abs(float(rt1) - float(rt2)) <= 0.02` on binary floating point,
   which decides pairs exactly two hundredths apart inconsistently, so the
   comparison is a parameter; `WithinTolerance` says what is certain about it.
   */
  type Closeness = (Rt, Rt) -> bool

  /**
   What holds of the program's comparison: it is symmetric, accepts a
   difference of zero or one hundredth and rejects three hundredths or more.
   */
  ghost predicate WithinTolerance(close: Closeness) {
    && (forall a, b :: close(a, b) == close(b, a))
    && (forall a, b :: -1 <= a - b <= 1 ==> close(a, b))
    && (forall a, b :: (a - b >= 3 || b - a >= 3) ==> !close(a, b))
  }

  /** Some row holds a zero in column `a` or in column `b` (the `.any()` test). */
  predicate SomeRowHasZero(m: Matrix, a: Rt, b: Rt) {
    exists s :: s in m.rows && (m.At(s, a) == 0.0 || m.At(s, b) == 0.0)
  }

  /** Whether two columns qualify for merging, consumption aside. */
  predicate Eligible(m: Matrix, close: Closeness, a: Rt, b: Rt) {
    a != b && close(a, b) && SomeRowHasZero(m, a, b)
  }

  /** The key of a merged column: the larger retention time of the pair. */
  function Hi(p: (Rt, Rt)): Rt {
    if p.0 < p.1 then p.1 else p.0
  }

  /** The source of a merge whose key does not survive: the smaller retention time. */
  function Lo(p: (Rt, Rt)): Rt {
    if p.0 < p.1 then p.0 else p.1
  }

  /** The two columns of a merge. */
  function Ends(p: (Rt, Rt)): set<Rt> {
    {p.0, p.1}
  }

  /** Every column that takes part in some merge. */
  function Endpoints(ms: seq<(Rt, Rt)>): set<Rt> {
    (set p | p in ms :: p.0) + (set p | p in ms :: p.1)
  }

  /** The keys of the merged columns. */
  function Keys(ms: seq<(Rt, Rt)>): set<Rt> {
    set p | p in ms :: Hi(p)
  }

  /** The merged-away columns, whose keys do not survive. */
  function Los(ms: seq<(Rt, Rt)>): set<Rt> {
    set p | p in ms :: Lo(p)
  }

  /** No column takes part in two merges. */
  ghost predicate Disjoint(ms: seq<(Rt, Rt)>) {
    forall k, l :: 0 <= k < l < |ms| ==> Ends(ms[k]) !! Ends(ms[l])
  }

  /** The state of the scan: the consumed columns and the merges made so far. */
  datatype Plan = Plan(consumed: set<Rt>, merges: seq<(Rt, Rt)>)

  /**
   What the scan maintains: the consumed set is exactly the columns of the
   merges made, every merge joined two eligible columns of the matrix, and no
   column took part in two merges.
   */
  ghost predicate Consistent(m: Matrix, close: Closeness, st: Plan) {
    && st.consumed == Endpoints(st.merges)
    && (forall k :: 0 <= k < |st.merges| ==>
          st.merges[k].0 in m.cols && st.merges[k].1 in m.cols && Eligible(m, close, st.merges[k].0, st.merges[k].1))
    && Disjoint(st.merges)
  }

  /**
   Every pair of column positions scanned before `(i, j)` either has a
   consumed column or does not qualify.
   */
  ghost predicate SettledBefore(m: Matrix, close: Closeness, consumed: set<Rt>, i: int, j: int) {
    forall x, y :: 0 <= x < |m.cols| && 0 <= y < |m.cols| && (x < i || (x == i && y < j)) ==>
      m.cols[x] in consumed || m.cols[y] in consumed || !Eligible(m, close, m.cols[x], m.cols[y])
  }

  /**
   Pair `p` is the first pair in scan order still available: it joins the
   columns at some positions `(x, y)`, and every pair scanned before `(x, y)`
   has a column in `consumed` or does not qualify.
   */
  ghost predicate FirstAvailable(m: Matrix, close: Closeness, consumed: set<Rt>, p: (Rt, Rt)) {
    exists x, y :: 0 <= x < |m.cols| && 0 <= y < |m.cols| && p == (m.cols[x], m.cols[y])
      && SettledBefore(m, close, consumed, x, y)
  }

  /** Every merge was made at the first pair, in scan order, still available after the merges before it. */
  ghost predicate FirstInScanOrder(m: Matrix, close: Closeness, ms: seq<(Rt, Rt)>)
    decreases |ms|
  {
    |ms| == 0 ||
    (FirstInScanOrder(m, close, ms[..|ms| - 1]) && FirstAvailable(m, close, Endpoints(ms[..|ms| - 1]), ms[|ms| - 1]))
  }

  /** Each merge of a first-in-scan-order sequence was the first available after the merges before it. */
  lemma {:induction false} FirstAt(m: Matrix, close: Closeness, ms: seq<(Rt, Rt)>, k: nat)
    requires FirstInScanOrder(m, close, ms) && k < |ms|
    ensures FirstAvailable(m, close, Endpoints(ms[..k]), ms[k])
    decreases |ms|
  {
    if k < |ms| - 1 {
      var init := ms[..|ms| - 1];
      FirstAt(m, close, init, k);
      assert init[..k] == ms[..k] && init[k] == ms[k];
    }
  }

  /** One visit of the inner loop: merge the pair if both are unconsumed and it qualifies. */
  function Step(m: Matrix, close: Closeness, st: Plan, a: Rt, b: Rt): (r: Plan)
    ensures st.consumed <= r.consumed
    ensures r.merges == st.merges || r.merges == st.merges + [(a, b)]
    ensures r.merges != st.merges <==> a !in st.consumed && b !in st.consumed && Eligible(m, close, a, b)
  {
    if a !in st.consumed && b !in st.consumed && Eligible(m, close, a, b) then
      Plan(st.consumed + {a, b}, st.merges + [(a, b)])
    else
      st
  }

  /** A merge step keeps the scan consistent and settles the pair it visits. */
  lemma StepKeepsConsistent(m: Matrix, close: Closeness, st: Plan, a: Rt, b: Rt)
    requires Consistent(m, close, st)
    requires a in m.cols && b in m.cols
    ensures Consistent(m, close, Step(m, close, st, a, b))
    ensures a in Step(m, close, st, a, b).consumed || b in Step(m, close, st, a, b).consumed || !Eligible(m, close, a, b)
  {
    var r := Step(m, close, st, a, b);
    if r.merges != st.merges {
      var ms := r.merges;
      assert Endpoints(ms) == Endpoints(st.merges) + {a, b} by {
        assert forall p :: p in ms <==> p in st.merges || p == (a, b);
      }
      forall k, l | 0 <= k < l < |ms| ensures Ends(ms[k]) !! Ends(ms[l]) {
        if l == |ms| - 1 {
          assert ms[k] in st.merges;
          assert ms[k].0 in Endpoints(st.merges) && ms[k].1 in Endpoints(st.merges);
        } else {
          assert ms[k] == st.merges[k] && ms[l] == st.merges[l];
        }
      }
    }
  }

  /** A visit at positions `(i, j)` with every earlier pair settled keeps each merge the first available one. */
  lemma StepKeepsFirst(m: Matrix, close: Closeness, st: Plan, i: nat, j: nat)
    requires i < |m.cols| && j < |m.cols|
    requires st.consumed == Endpoints(st.merges)
    requires SettledBefore(m, close, st.consumed, i, j)
    requires FirstInScanOrder(m, close, st.merges)
    ensures FirstInScanOrder(m, close, Step(m, close, st, m.cols[i], m.cols[j]).merges)
  {
    var ms := Step(m, close, st, m.cols[i], m.cols[j]).merges;
    if ms != st.merges {
      assert ms[..|ms| - 1] == st.merges;
      assert FirstAvailable(m, close, st.consumed, (m.cols[i], m.cols[j]));
    }
  }

  /** The inner loop for outer position `i`, from inner position `j` on. */
  function ScanRow(m: Matrix, close: Closeness, i: nat, j: nat, st: Plan): (r: Plan)
    requires i < |m.cols| && j <= |m.cols|
    ensures st.consumed <= r.consumed
    ensures st.merges <= r.merges
    decreases |m.cols| - j
  {
    if j == |m.cols| then st
    else ScanRow(m, close, i, j + 1, Step(m, close, st, m.cols[i], m.cols[j]))
  }

  /** The outer loop, from outer position `i` on. */
  function ScanFrom(m: Matrix, close: Closeness, i: nat, st: Plan): (r: Plan)
    requires i <= |m.cols|
    ensures st.consumed <= r.consumed
    ensures st.merges <= r.merges
    decreases |m.cols| - i
  {
    if i == |m.cols| then st
    else ScanFrom(m, close, i + 1, ScanRow(m, close, i, 0, st))
  }

  /** Visiting pair `(i, j)` settles it, and growing the consumed set keeps earlier pairs settled. */
  lemma SettleStep(m: Matrix, close: Closeness, before: set<Rt>, after: set<Rt>, i: nat, j: nat)
    requires i < |m.cols| && j < |m.cols|
    requires SettledBefore(m, close, before, i, j)
    requires before <= after
    requires m.cols[i] in after || m.cols[j] in after || !Eligible(m, close, m.cols[i], m.cols[j])
    ensures SettledBefore(m, close, after, i, j + 1)
  {
    forall x, y | 0 <= x < |m.cols| && 0 <= y < |m.cols| && (x < i || (x == i && y < j + 1))
      ensures m.cols[x] in after || m.cols[y] in after || !Eligible(m, close, m.cols[x], m.cols[y])
    {
      if x == i && y == j {
      } else {
        assert m.cols[x] in before || m.cols[y] in before || !Eligible(m, close, m.cols[x], m.cols[y]);
      }
    }
  }

  /** Having visited all of row `i` is the same as having settled every pair before row `i + 1`. */
  lemma SettleRow(m: Matrix, close: Closeness, consumed: set<Rt>, i: nat)
    requires SettledBefore(m, close, consumed, i, |m.cols|)
    ensures SettledBefore(m, close, consumed, i + 1, 0)
  {
  }

  /**
   The inner loop keeps the scan consistent, and once it has finished every
   pair with outer position `i` is settled.
   */
  lemma {:induction false} ScanRowSettles(m: Matrix, close: Closeness, i: nat, j: nat, st: Plan)
    requires i < |m.cols| && j <= |m.cols|
    requires Consistent(m, close, st)
    requires SettledBefore(m, close, st.consumed, i, j)
    ensures Consistent(m, close, ScanRow(m, close, i, j, st))
    ensures SettledBefore(m, close, ScanRow(m, close, i, j, st).consumed, i + 1, 0)
    decreases |m.cols| - j
  {
    if j < |m.cols| {
      var next := Step(m, close, st, m.cols[i], m.cols[j]);
      StepKeepsConsistent(m, close, st, m.cols[i], m.cols[j]);
      SettleStep(m, close, st.consumed, next.consumed, i, j);
      ScanRowSettles(m, close, i, j + 1, next);
    } else {
      SettleRow(m, close, st.consumed, i);
    }
  }

  /** The outer loop keeps the scan consistent and leaves every pair settled. */
  lemma {:induction false} ScanFromSettles(m: Matrix, close: Closeness, i: nat, st: Plan)
    requires i <= |m.cols|
    requires Consistent(m, close, st)
    requires SettledBefore(m, close, st.consumed, i, 0)
    ensures Consistent(m, close, ScanFrom(m, close, i, st))
    ensures SettledBefore(m, close, ScanFrom(m, close, i, st).consumed, |m.cols|, 0)
    decreases |m.cols| - i
  {
    if i < |m.cols| {
      ScanRowSettles(m, close, i, 0, st);
      ScanFromSettles(m, close, i + 1, ScanRow(m, close, i, 0, st));
    }
  }

  /** A visit at positions `(i, j)` keeps all three scan invariants and moves the settled region past `(i, j)`. */
  lemma StepAdvances(m: Matrix, close: Closeness, st: Plan, i: nat, j: nat)
    requires i < |m.cols| && j < |m.cols|
    requires Consistent(m, close, st)
    requires SettledBefore(m, close, st.consumed, i, j)
    requires FirstInScanOrder(m, close, st.merges)
    ensures Consistent(m, close, Step(m, close, st, m.cols[i], m.cols[j]))
    ensures SettledBefore(m, close, Step(m, close, st, m.cols[i], m.cols[j]).consumed, i, j + 1)
    ensures FirstInScanOrder(m, close, Step(m, close, st, m.cols[i], m.cols[j]).merges)
  {
    var next := Step(m, close, st, m.cols[i], m.cols[j]);
    StepKeepsConsistent(m, close, st, m.cols[i], m.cols[j]);
    SettleStep(m, close, st.consumed, next.consumed, i, j);
    StepKeepsFirst(m, close, st, i, j);
  }

  /** The inner loop makes each of its merges at the first pair still available. */
  lemma {:induction false} ScanRowFirst(m: Matrix, close: Closeness, i: nat, j: nat, st: Plan)
    requires i < |m.cols| && j <= |m.cols|
    requires Consistent(m, close, st)
    requires SettledBefore(m, close, st.consumed, i, j)
    requires FirstInScanOrder(m, close, st.merges)
    ensures FirstInScanOrder(m, close, ScanRow(m, close, i, j, st).merges)
    decreases |m.cols| - j
  {
    if j < |m.cols| {
      var next := Step(m, close, st, m.cols[i], m.cols[j]);
      StepAdvances(m, close, st, i, j);
      ScanRowFirst(m, close, i, j + 1, next);
    }
  }

  /** The outer loop makes each of its merges at the first pair still available. */
  lemma {:induction false} ScanFromFirst(m: Matrix, close: Closeness, i: nat, st: Plan)
    requires i <= |m.cols|
    requires Consistent(m, close, st)
    requires SettledBefore(m, close, st.consumed, i, 0)
    requires FirstInScanOrder(m, close, st.merges)
    ensures FirstInScanOrder(m, close, ScanFrom(m, close, i, st).merges)
    decreases |m.cols| - i
  {
    if i < |m.cols| {
      ScanRowSettles(m, close, i, 0, st);
      ScanRowFirst(m, close, i, 0, st);
      ScanFromFirst(m, close, i + 1, ScanRow(m, close, i, 0, st));
    }
  }

  /**
   The whole pass over all ordered pairs of columns, starting with nothing
   consumed: every merge joins two eligible columns, no column is merged
   twice, the consumed set is exactly the merged columns, no two unconsumed
   columns are left that would qualify, and each merge is the first pair in
   scan order still available when it was made.
   */
  function MergePlan(m: Matrix, close: Closeness): (r: Plan)
    ensures Consistent(m, close, r)
    ensures forall p :: p in r.merges ==> p.0 in m.cols && p.1 in m.cols && Eligible(m, close, p.0, p.1)
    ensures r.consumed == Endpoints(r.merges)
    ensures Disjoint(r.merges)
    ensures forall a, b :: a in m.cols && b in m.cols && a !in r.consumed && b !in r.consumed ==>
      !Eligible(m, close, a, b)
    ensures FirstInScanOrder(m, close, r.merges)
  {
    var r := ScanFrom(m, close, 0, Plan({}, []));
    ScanFromSettles(m, close, 0, Plan({}, []));
    ScanFromFirst(m, close, 0, Plan({}, []));
    forall a, b | a in m.cols && b in m.cols && a !in r.consumed && b !in r.consumed
      ensures !Eligible(m, close, a, b)
    {
      var x :| 0 <= x < |m.cols| && m.cols[x] == a;
      var y :| 0 <= y < |m.cols| && m.cols[y] == b;
    }
    r
  }

  /**
   What characterises the merges of the pass, independently of how the scan
   computes them: eligible pairs of columns, pairwise disjoint, each the first
   available pair in scan order, leaving no unconsumed pair that qualifies.
   */
  ghost predicate ScanOrderMerges(m: Matrix, close: Closeness, ms: seq<(Rt, Rt)>) {
    && (forall k :: 0 <= k < |ms| ==> Eligible(m, close, ms[k].0, ms[k].1))
    && Disjoint(ms)
    && FirstInScanOrder(m, close, ms)
    && (forall a, b :: a in m.cols && b in m.cols && a !in Endpoints(ms) && b !in Endpoints(ms) ==>
          !Eligible(m, close, a, b))
  }

  /** A merge shares no column with the merges made before it. */
  lemma DisjointFromEarlier(ms: seq<(Rt, Rt)>, k: nat)
    requires Disjoint(ms) && k < |ms|
    ensures ms[k].0 !in Endpoints(ms[..k]) && ms[k].1 !in Endpoints(ms[..k])
  {
    forall e | e in Endpoints(ms[..k]) ensures e !in Ends(ms[k]) {
      var p :| p in ms[..k] && (p.0 == e || p.1 == e);
      var l :| 0 <= l < k && ms[..k][l] == p;
      assert Ends(ms[l]) !! Ends(ms[k]);
    }
  }

  /** Two merge sequences that agree before position `k` and both characterise the pass agree at `k`. */
  lemma NextMergeAgrees(m: Matrix, close: Closeness, a: seq<(Rt, Rt)>, b: seq<(Rt, Rt)>, k: nat)
    requires ScanOrderMerges(m, close, a) && ScanOrderMerges(m, close, b)
    requires k < |a| && k < |b| && a[..k] == b[..k]
    ensures a[k] == b[k]
  {
    DisjointFromEarlier(a, k);
    DisjointFromEarlier(b, k);
    FirstAt(m, close, a, k);
    FirstAt(m, close, b, k);
    var xa, ya :| 0 <= xa < |m.cols| && 0 <= ya < |m.cols| && a[k] == (m.cols[xa], m.cols[ya])
      && SettledBefore(m, close, Endpoints(a[..k]), xa, ya);
    var xb, yb :| 0 <= xb < |m.cols| && 0 <= yb < |m.cols| && b[k] == (m.cols[xb], m.cols[yb])
      && SettledBefore(m, close, Endpoints(b[..k]), xb, yb);
    assert Eligible(m, close, a[k].0, a[k].1) && Eligible(m, close, b[k].0, b[k].1);
    if xa < xb || (xa == xb && ya < yb) {
      assert false;
    } else if xb < xa || (xa == xb && yb < ya) {
      assert false;
    }
  }

  /** Two merge sequences that both characterise the pass agree on their common prefix. */
  lemma {:induction false} MergesAgreeUpTo(m: Matrix, close: Closeness, a: seq<(Rt, Rt)>, b: seq<(Rt, Rt)>, k: nat)
    requires ScanOrderMerges(m, close, a) && ScanOrderMerges(m, close, b)
    requires k <= |a| && k <= |b|
    ensures a[..k] == b[..k]
  {
    if k > 0 {
      MergesAgreeUpTo(m, close, a, b, k - 1);
      NextMergeAgrees(m, close, a, b, k - 1);
      assert a[..k] == a[..k - 1] + [a[k - 1]];
      assert b[..k] == b[..k - 1] + [b[k - 1]];
    }
  }

  /** Two merge sequences that both characterise the pass are equal. */
  lemma ScanOrderMergesUnique(m: Matrix, close: Closeness, a: seq<(Rt, Rt)>, b: seq<(Rt, Rt)>)
    requires ScanOrderMerges(m, close, a) && ScanOrderMerges(m, close, b)
    ensures a == b
  {
    if |a| < |b| {
      MergesAgreeUpTo(m, close, a, b, |a|);
      assert a == a[..|a|];
      DisjointFromEarlier(b, |a|);
      FirstAt(m, close, b, |a|);
      assert false;
    } else if |b| < |a| {
      MergesAgreeUpTo(m, close, b, a, |b|);
      assert b == b[..|b|];
      DisjointFromEarlier(a, |b|);
      FirstAt(m, close, a, |b|);
      assert false;
    } else {
      MergesAgreeUpTo(m, close, a, b, |a|);
      assert a == a[..|a|] && b == b[..|b|];
    }
  }

  /**
   The pass's merges are exactly the sequence that characterises it: the
   scan's result is the only eligible, disjoint, first-in-scan-order and
   maximal sequence of merges.
   */
  lemma MergePlanCharacterised(m: Matrix, close: Closeness, ms: seq<(Rt, Rt)>)
    ensures ScanOrderMerges(m, close, MergePlan(m, close).merges)
    ensures ScanOrderMerges(m, close, ms) <==> ms == MergePlan(m, close).merges
  {
    var r := MergePlan(m, close);
    assert forall k :: 0 <= k < |r.merges| ==> r.merges[k] in r.merges;
    if ScanOrderMerges(m, close, ms) {
      ScanOrderMergesUnique(m, close, ms, r.merges);
    }
  }

  /**
   The value of column `c` in row `s` once the merges are applied: the sum of
   the two sources of the merge keyed by `c` (the last such assignment wins),
   otherwise the original value.
   */
  function MergedValue(m: Matrix, ms: seq<(Rt, Rt)>, s: Sample, c: Rt): real {
    if |ms| == 0 then m.At(s, c)
    else
      var p := ms[|ms| - 1];
      if Hi(p) == c then m.At(s, p.0) + m.At(s, p.1)
      else MergedValue(m, ms[..|ms| - 1], s, c)
  }

  /** Whether a column survives: never consumed, or the key of a merge. */
  function Survives(pl: Plan): Rt -> bool {
    c => c !in pl.consumed || c in Keys(pl.merges)
  }

  /** The output matrix of a plan: surviving columns in ascending order, same rows. */
  function Assemble(m: Matrix, pl: Plan): Matrix {
    var cols := Filter(m.cols, Survives(pl));
    Matrix(m.rows, cols, map k | k in Grid(m.rows, cols) :: MergedValue(m, pl.merges, k.0, k.1))
  }

  /** The merge engine: scan, then assemble. */
  function MergeColumns(m: Matrix, close: Closeness): (r: Matrix)
    requires Valid(m)
    ensures Valid(r)
    ensures r.rows == m.rows
    ensures forall c :: c in r.cols ==> c in m.cols
    ensures |r.cols| == |m.cols| - |MergePlan(m, close).merges|
    ensures forall c :: c in m.cols && c !in MergePlan(m, close).consumed ==> c in r.cols
    ensures forall s, c :: s in m.rows && c in m.cols && c !in MergePlan(m, close).consumed ==>
      r.At(s, c) == m.At(s, c)
    ensures forall p :: p in MergePlan(m, close).merges ==> Hi(p) in r.cols && Lo(p) !in r.cols
    ensures forall s, p :: s in m.rows && p in MergePlan(m, close).merges ==>
      r.At(s, Hi(p)) == m.At(s, p.0) + m.At(s, p.1)
    ensures forall c :: c in r.cols ==> c !in MergePlan(m, close).consumed || c in Keys(MergePlan(m, close).merges)
    ensures forall s :: s in m.rows ==> RowTotal(r, s, r.cols) == RowTotal(m, s, m.cols)
  {
    var pl := MergePlan(m, close);
    AssembleShape(m, close, pl);
    AssemblePassesThrough(m, close, pl);
    AssembleKeepsKeys(m, close, pl);
    AssembleSumsMerges(m, close, pl);
    forall s | s in m.rows ensures RowTotal(Assemble(m, pl), s, Assemble(m, pl).cols) == RowTotal(m, s, m.cols) {
      AssembleConservesRowTotals(m, close, pl, s);
    }
    Assemble(m, pl)
  }

  /** The assembled matrix is well formed, with the surviving columns only. */
  lemma AssembleShape(m: Matrix, close: Closeness, pl: Plan)
    requires Valid(m)
    requires Consistent(m, close, pl)
    ensures Valid(Assemble(m, pl))
    ensures Assemble(m, pl).rows == m.rows
    ensures forall c :: c in Assemble(m, pl).cols <==> c in m.cols && Survives(pl)(c)
    ensures |Assemble(m, pl).cols| == |m.cols| - |pl.merges|
  {
    FilterSorted(m.cols, Survives(pl), RtLess);
    SurvivorCount(m, close, pl);
  }

  /** A column no merge touched is passed through with its values. */
  lemma AssemblePassesThrough(m: Matrix, close: Closeness, pl: Plan)
    requires Consistent(m, close, pl)
    ensures forall s, c :: s in m.rows && c in m.cols && c !in pl.consumed ==>
      c in Assemble(m, pl).cols && Assemble(m, pl).At(s, c) == m.At(s, c)
  {
    var r := Assemble(m, pl);
    forall s, c | s in m.rows && c in m.cols && c !in pl.consumed
      ensures c in r.cols && r.At(s, c) == m.At(s, c)
    {
      assert c !in Keys(pl.merges);
      MergedValueOf(m, pl.merges, s, c);
    }
  }

  /** A merge's key survives and its merged-away column does not. */
  lemma AssembleKeepsKeys(m: Matrix, close: Closeness, pl: Plan)
    requires Consistent(m, close, pl)
    ensures forall p :: p in pl.merges ==> Hi(p) in Assemble(m, pl).cols && Lo(p) !in Assemble(m, pl).cols
  {
    var r := Assemble(m, pl);
    assert forall k :: 0 <= k < |pl.merges| ==> pl.merges[k].0 != pl.merges[k].1;
    forall p | p in pl.merges ensures Hi(p) in r.cols && Lo(p) !in r.cols {
      LoIsNotAKey(pl.merges, p);
    }
  }

  /** A merge's key column holds, in every row, the sum of the merge's two sources. */
  lemma AssembleSumsMerges(m: Matrix, close: Closeness, pl: Plan)
    requires Consistent(m, close, pl)
    ensures forall s, p :: s in m.rows && p in pl.merges ==>
      Assemble(m, pl).At(s, Hi(p)) == m.At(s, p.0) + m.At(s, p.1)
  {
    var r := Assemble(m, pl);
    AssembleKeepsKeys(m, close, pl);
    forall s, p | s in m.rows && p in pl.merges
      ensures r.At(s, Hi(p)) == m.At(s, p.0) + m.At(s, p.1)
    {
      assert (s, Hi(p)) in r.cell;
      MergedValueOf(m, pl.merges, s, Hi(p));
    }
  }

  /** The merged-away column of a merge is not the key of any merge. */
  lemma LoIsNotAKey(ms: seq<(Rt, Rt)>, p: (Rt, Rt))
    requires Disjoint(ms)
    requires forall k :: 0 <= k < |ms| ==> ms[k].0 != ms[k].1
    requires p in ms
    ensures Lo(p) !in Keys(ms)
    ensures Lo(p) in Endpoints(ms)
  {
    var k :| 0 <= k < |ms| && ms[k] == p;
    if Lo(p) in Keys(ms) {
      assert false;
    }
  }

  /**
   The value of a merged column is the sum of its two sources; a column that is
   no merge's key keeps its value.
   */
  lemma {:induction false} MergedValueOf(m: Matrix, ms: seq<(Rt, Rt)>, s: Sample, c: Rt)
    requires Disjoint(ms)
    ensures c !in Keys(ms) ==> MergedValue(m, ms, s, c) == m.At(s, c)
    ensures forall p :: p in ms && Hi(p) == c ==> MergedValue(m, ms, s, c) == m.At(s, p.0) + m.At(s, p.1)
  {
    if |ms| > 0 {
      var prefix := ms[..|ms| - 1];
      var last := ms[|ms| - 1];
      assert Disjoint(prefix);
      MergedValueOf(m, prefix, s, c);
      assert forall p :: p in ms ==> p in prefix || p == last;
      forall p | p in ms && Hi(p) == c && Hi(last) == c
        ensures p == last
      {
        var k :| 0 <= k < |ms| && ms[k] == p;
      }
      if c !in Keys(ms) {
        assert c !in Keys(prefix);
      }
    }
  }

  /** The columns a merge removes are exactly its merged-away columns, one per merge. */
  lemma SurvivorCount(m: Matrix, close: Closeness, pl: Plan)
    requires Valid(m)
    requires Consistent(m, close, pl)
    ensures |Filter(m.cols, Survives(pl))| == |m.cols| - |pl.merges|
  {
    var ms := pl.merges;
    RtLessIsStrictTotalOrder();
    SortedIsDistinct(m.cols, RtLess);
    assert forall k :: 0 <= k < |ms| ==> ms[k].0 != ms[k].1 && ms[k].0 in m.cols && ms[k].1 in m.cols;
    DroppedAreLos(m.cols, pl);
    LosCount(ms);
    FilterLength(m.cols, Survives(pl));
  }

  /** The columns that do not survive a plan are its merged-away columns. */
  lemma DroppedAreLos(cols: seq<Rt>, pl: Plan)
    requires pl.consumed == Endpoints(pl.merges)
    requires Disjoint(pl.merges)
    requires forall k :: 0 <= k < |pl.merges| ==> pl.merges[k].0 != pl.merges[k].1
    requires forall k :: 0 <= k < |pl.merges| ==> pl.merges[k].0 in cols && pl.merges[k].1 in cols
    ensures Rejected(cols, Survives(pl)) == Los(pl.merges)
  {
    var ms := pl.merges;
    var dropped := Rejected(cols, Survives(pl));
    forall c | c in Los(ms) ensures c in dropped {
      var p :| p in ms && Lo(p) == c;
      var k :| 0 <= k < |ms| && ms[k] == p;
      LoIsNotAKey(ms, p);
    }
    forall c | c in dropped ensures c in Los(ms) {
      assert c in Endpoints(ms) && c !in Keys(ms);
      var p :| p in ms && (p.0 == c || p.1 == c);
      assert Hi(p) in Keys(ms);
    }
  }

  /** Dropping the last merge keeps the rest disjoint, and the last merge shares no column with them. */
  lemma DisjointPrefix(ms: seq<(Rt, Rt)>)
    requires Disjoint(ms) && |ms| > 0
    ensures Disjoint(ms[..|ms| - 1])
    ensures forall k :: 0 <= k < |ms| - 1 ==> Ends(ms[k]) !! Ends(ms[|ms| - 1])
    ensures Ends(ms[|ms| - 1]) !! Endpoints(ms[..|ms| - 1])
  {
    var n := |ms| - 1;
    var prefix := ms[..n];
    forall k, l | 0 <= k < l < |prefix| ensures Ends(prefix[k]) !! Ends(prefix[l]) {
      assert prefix[k] == ms[k] && prefix[l] == ms[l];
    }
    forall c | c in Endpoints(prefix) ensures c !in Ends(ms[n]) {
      var p :| p in prefix && (p.0 == c || p.1 == c);
      var k :| 0 <= k < n && prefix[k] == p;
      assert ms[k] == p;
    }
  }

  /** The merged-away columns of a plan extended by one merge. */
  lemma LosSnoc(ms: seq<(Rt, Rt)>)
    requires |ms| > 0
    ensures Los(ms) == Los(ms[..|ms| - 1]) + {Lo(ms[|ms| - 1])}
  {
    var n := |ms| - 1;
    assert forall p :: p in ms <==> p in ms[..n] || p == ms[n] by {
      assert ms == ms[..n] + [ms[n]];
    }
  }

  /** A merged-away column takes part in its merge. */
  lemma LosAreEndpoints(ms: seq<(Rt, Rt)>)
    ensures Los(ms) <= Endpoints(ms)
  {
    forall c | c in Los(ms) ensures c in Endpoints(ms) {
      var p :| p in ms && Lo(p) == c;
    }
  }

  /** Distinct merges have distinct merged-away columns. */
  lemma {:induction false} LosCount(ms: seq<(Rt, Rt)>)
    requires Disjoint(ms)
    ensures |Los(ms)| == |ms|
  {
    if |ms| > 0 {
      var n := |ms| - 1;
      var prefix := ms[..n];
      var last := ms[n];
      DisjointPrefix(ms);
      LosCount(prefix);
      LosSnoc(ms);
      LosAreEndpoints(prefix);
      assert Lo(last) in Ends(last);
      assert Lo(last) !in Los(prefix);
    }
  }

  /**
   The contribution of column `c` to the total of row `s` after the merges:
   a merge moves the value of its smaller column onto its larger one.
   */
  ghost function Contribution(m: Matrix, ms: seq<(Rt, Rt)>, s: Sample, c: Rt): real {
    if |ms| == 0 then m.At(s, c)
    else
      var p := ms[|ms| - 1];
      if c == Hi(p) then m.At(s, p.0) + m.At(s, p.1)
      else if c == Lo(p) then 0.0
      else Contribution(m, ms[..|ms| - 1], s, c)
  }

  ghost function ContributionRow(m: Matrix, ms: seq<(Rt, Rt)>, s: Sample): Rt -> real {
    c => Contribution(m, ms, s, c)
  }

  /** Contributions agree with the assembled values on surviving columns and vanish on the others. */
  lemma {:induction false} ContributionIsMergedValue(m: Matrix, ms: seq<(Rt, Rt)>, s: Sample, c: Rt)
    requires Disjoint(ms)
    requires forall k :: 0 <= k < |ms| ==> ms[k].0 != ms[k].1
    ensures c !in Endpoints(ms) ==> Contribution(m, ms, s, c) == m.At(s, c)
    ensures c in Keys(ms) ==> Contribution(m, ms, s, c) == MergedValue(m, ms, s, c)
    ensures c in Endpoints(ms) && c !in Keys(ms) ==> Contribution(m, ms, s, c) == 0.0
  {
    if |ms| > 0 {
      var n := |ms| - 1;
      var prefix := ms[..n];
      var last := ms[n];
      DisjointPrefix(ms);
      assert forall p :: p in ms <==> p in prefix || p == last;
      if c in Ends(last) {
        assert c !in Endpoints(prefix) && c !in Keys(prefix);
        assert c in Endpoints(ms);
        if c == Hi(last) {
          assert c in Keys(ms);
        } else {
          assert c == Lo(last);
          assert c !in Keys(ms);
        }
      } else {
        ContributionIsMergedValue(m, prefix, s, c);
        assert c in Endpoints(ms) <==> c in Endpoints(prefix);
        assert c in Keys(ms) <==> c in Keys(prefix);
        assert Contribution(m, ms, s, c) == Contribution(m, prefix, s, c);
        assert MergedValue(m, ms, s, c) == MergedValue(m, prefix, s, c);
      }
    }
  }

  /** The last merge moves the area of its smaller column onto its larger one and touches no other column. */
  lemma LastMergeMovesArea(m: Matrix, ms: seq<(Rt, Rt)>, s: Sample)
    requires |ms| > 0 && ms[|ms| - 1].0 != ms[|ms| - 1].1
    ensures var last := ms[|ms| - 1];
      Contribution(m, ms, s, last.0) + Contribution(m, ms, s, last.1) == m.At(s, last.0) + m.At(s, last.1)
    ensures forall c :: c != ms[|ms| - 1].0 && c != ms[|ms| - 1].1 ==>
      Contribution(m, ms, s, c) == Contribution(m, ms[..|ms| - 1], s, c)
  {
  }

  /** The last merge moves area within the row without changing its total. */
  lemma LastMergeKeepsTotal(m: Matrix, ms: seq<(Rt, Rt)>, s: Sample)
    requires Distinct(m.cols)
    requires Disjoint(ms) && |ms| > 0
    requires forall k :: 0 <= k < |ms| ==> ms[k].0 != ms[k].1 && ms[k].0 in m.cols && ms[k].1 in m.cols
    ensures SumOver(m.cols, ContributionRow(m, ms, s)) == SumOver(m.cols, ContributionRow(m, ms[..|ms| - 1], s))
  {
    var n := |ms| - 1;
    var prefix := ms[..n];
    var last := ms[n];
    DisjointPrefix(ms);
    ContributionIsMergedValue(m, prefix, s, last.0);
    ContributionIsMergedValue(m, prefix, s, last.1);
    LastMergeMovesArea(m, ms, s);
    var f := ContributionRow(m, prefix, s);
    var g := ContributionRow(m, ms, s);
    SumOverTwoPointUpdate(m.cols, f, g, last.0, last.1);
  }

  /** Merging moves area between columns of a row but never creates or loses any. */
  lemma {:induction false} ContributionTotal(m: Matrix, ms: seq<(Rt, Rt)>, s: Sample)
    requires Distinct(m.cols)
    requires Disjoint(ms)
    requires forall k :: 0 <= k < |ms| ==> ms[k].0 != ms[k].1 && ms[k].0 in m.cols && ms[k].1 in m.cols
    ensures SumOver(m.cols, ContributionRow(m, ms, s)) == SumOver(m.cols, m.Row(s))
  {
    if |ms| > 0 {
      DisjointPrefix(ms);
      ContributionTotal(m, ms[..|ms| - 1], s);
      LastMergeKeepsTotal(m, ms, s);
    } else {
      SumOverExt(m.cols, ContributionRow(m, ms, s), m.Row(s));
    }
  }

  /** Each input column's contribution is what the assembled matrix holds there (zero if dropped). */
  lemma AssembledContribution(m: Matrix, close: Closeness, pl: Plan, s: Sample, c: Rt)
    requires Consistent(m, close, pl)
    requires s in m.rows && c in m.cols
    ensures Assemble(m, pl).At(s, c) == Contribution(m, pl.merges, s, c)
  {
    var ms := pl.merges;
    var r := Assemble(m, pl);
    assert forall k :: 0 <= k < |ms| ==> ms[k].0 != ms[k].1;
    ContributionIsMergedValue(m, ms, s, c);
    if c in Keys(ms) {
      assert c in r.cols;
      assert (s, c) in Grid(m.rows, r.cols);
    } else if c in Endpoints(ms) {
      assert c !in r.cols;
      assert (s, c) !in r.cell;
    } else {
      MergedValueOf(m, ms, s, c);
      assert c in r.cols;
      assert (s, c) in Grid(m.rows, r.cols);
    }
  }

  /** The assembled matrix holds nothing in a column the plan drops. */
  lemma DroppedColumnsVanish(m: Matrix, pl: Plan, s: Sample)
    ensures forall i :: 0 <= i < |m.cols| && !Survives(pl)(m.cols[i]) ==> Assemble(m, pl).Row(s)(m.cols[i]) == 0.0
  {
    var r := Assemble(m, pl);
    forall i | 0 <= i < |m.cols| && !Survives(pl)(m.cols[i]) ensures r.Row(s)(m.cols[i]) == 0.0 {
      assert m.cols[i] !in r.cols;
    }
  }

  /** A plan's assembled matrix has the same row totals as the matrix it was planned on. */
  lemma AssembleConservesRowTotals(m: Matrix, close: Closeness, pl: Plan, s: Sample)
    requires Valid(m)
    requires Consistent(m, close, pl)
    requires s in m.rows
    ensures RowTotal(Assemble(m, pl), s, Assemble(m, pl).cols) == RowTotal(m, s, m.cols)
  {
    var ms := pl.merges;
    var r := Assemble(m, pl);
    var f := r.Row(s);
    var g := ContributionRow(m, ms, s);
    forall i | 0 <= i < |m.cols| ensures f(m.cols[i]) == g(m.cols[i]) {
      AssembledContribution(m, close, pl, s, m.cols[i]);
    }
    DroppedColumnsVanish(m, pl, s);
    SumOverFilter(m.cols, Survives(pl), f);
    SumOverExt(m.cols, f, g);
    RtLessIsStrictTotalOrder();
    SortedIsDistinct(m.cols, RtLess);
    ContributionTotal(m, ms, s);
  }
}
