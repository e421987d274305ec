/**
 Orderings and order-preserving sequence operations shared by the pivot and
 the merge: strictly sorted sequences under a strict total order, insertion
 of a key into such a sequence (the way a sorted index gains a new label),
 and order-preserving filtering (the way a column selection keeps the order
 of the index it selects from).
 */
module Order {

  /** A strict total order: irreflexive, transitive and total on distinct values. */
  ghost predicate StrictTotalOrder<T(!new)>(less: (T, T) -> bool) {
    && (forall x :: !less(x, x))
    && (forall x, y, z :: less(x, y) && less(y, z) ==> less(x, z))
    && (forall x, y :: x != y ==> less(x, y) || less(y, x))
  }

  /** Every element is strictly below every later one. */
  ghost predicate StrictlySorted<T>(xs: seq<T>, less: (T, T) -> bool) {
    forall i, j :: 0 <= i < j < |xs| ==> less(xs[i], xs[j])
  }

  /** No element occurs twice. */
  ghost predicate Distinct<T>(xs: seq<T>) {
    forall i, j :: 0 <= i < j < |xs| ==> xs[i] != xs[j]
  }

  /** The natural order of retention times (integer hundredths of a minute). */
  function RtLess(a: int, b: int): bool {
    a < b
  }

  /** Code-point lexicographic order of strings, the order of a sorted string index. */
  function StringLess(a: string, b: string): bool {
    if |a| == 0 then |b| > 0
    else if |b| == 0 then false
    else if a[0] != b[0] then a[0] < b[0]
    else StringLess(a[1..], b[1..])
  }

  lemma RtLessIsStrictTotalOrder()
    ensures StrictTotalOrder(RtLess)
  {
  }

  lemma {:induction false} StringLessIrreflexive(a: string)
    ensures !StringLess(a, a)
    decreases |a|
  {
    if |a| > 0 {
      StringLessIrreflexive(a[1..]);
    }
  }

  lemma {:induction false} StringLessTransitive(a: string, b: string, c: string)
    requires StringLess(a, b) && StringLess(b, c)
    ensures StringLess(a, c)
    decreases |a|
  {
    if |a| > 0 && |b| > 0 && |c| > 0 && a[0] == b[0] && b[0] == c[0] {
      StringLessTransitive(a[1..], b[1..], c[1..]);
    }
  }

  lemma {:induction false} StringLessTotal(a: string, b: string)
    requires a != b
    ensures StringLess(a, b) || StringLess(b, a)
    decreases |a|
  {
    if |a| > 0 && |b| > 0 && a[0] == b[0] {
      assert a == [a[0]] + a[1..] && b == [b[0]] + b[1..];
      StringLessTotal(a[1..], b[1..]);
    }
  }

  lemma StringLessIsStrictTotalOrder()
    ensures StrictTotalOrder(StringLess)
  {
    forall x: string ensures !StringLess(x, x) {
      StringLessIrreflexive(x);
    }
    forall x: string, y: string, z: string | StringLess(x, y) && StringLess(y, z)
      ensures StringLess(x, z)
    {
      StringLessTransitive(x, y, z);
    }
    forall x: string, y: string | x != y
      ensures StringLess(x, y) || StringLess(y, x)
    {
      StringLessTotal(x, y);
    }
  }

  lemma SortedIsDistinct<T(!new)>(xs: seq<T>, less: (T, T) -> bool)
    requires StrictTotalOrder(less)
    requires StrictlySorted(xs, less)
    ensures Distinct(xs)
  {
  }

  /**
   Inserts `x` into a strictly sorted sequence, leaving it unchanged when `x`
   is already present.
   */
  function InsertSorted<T(==,!new)>(xs: seq<T>, x: T, less: (T, T) -> bool): (r: seq<T>)
    requires StrictTotalOrder(less)
    requires StrictlySorted(xs, less)
    ensures StrictlySorted(r, less)
    ensures forall y :: y in r <==> y in xs || y == x
    ensures x in xs ==> r == xs
  {
    if |xs| == 0 then [x]
    else if x == xs[0] then xs
    else if less(x, xs[0]) then [x] + xs
    else
      var rest := InsertSorted(xs[1..], x, less);
      assert forall y :: y in xs[1..] ==> less(xs[0], y);
      if x in xs then
        assert x in xs[1..];
        xs
      else
        [xs[0]] + rest
  }

  /** The distinct elements of `xs`, in ascending order (the index of a pivot table). */
  function SortedKeys<T(==,!new)>(xs: seq<T>, less: (T, T) -> bool): (r: seq<T>)
    requires StrictTotalOrder(less)
    ensures StrictlySorted(r, less)
    ensures forall y :: y in r <==> y in xs
  {
    if |xs| == 0 then []
    else
      var n := |xs| - 1;
      var r := InsertSorted(SortedKeys(xs[..n], less), xs[n], less);
      assert xs == xs[..n] + [xs[n]];
      r
  }

  /** The elements of `xs` that satisfy `keep`, in their original order. */
  function Filter<T(==,!new)>(xs: seq<T>, keep: T -> bool): (r: seq<T>)
    ensures forall y :: y in r <==> y in xs && keep(y)
    ensures |r| <= |xs|
  {
    if |xs| == 0 then []
    else if keep(xs[0]) then [xs[0]] + Filter(xs[1..], keep)
    else Filter(xs[1..], keep)
  }

  /** The elements of `xs` that fail `keep`. */
  function Rejected<T(!new)>(xs: seq<T>, keep: T -> bool): set<T> {
    set y | y in xs && !keep(y)
  }

  lemma {:induction false} FilterSorted<T(!new)>(xs: seq<T>, keep: T -> bool, less: (T, T) -> bool)
    requires StrictlySorted(xs, less)
    ensures StrictlySorted(Filter(xs, keep), less)
  {
    if |xs| > 0 {
      FilterSorted(xs[1..], keep, less);
      var rest := Filter(xs[1..], keep);
      assert forall y :: y in rest ==> y in xs[1..];
      assert forall y :: y in xs[1..] ==> less(xs[0], y);
    }
  }

  /**
   On a sequence without repetitions, filtering removes exactly as many
   elements as fail the predicate.
   */
  lemma {:induction false} FilterLength<T(!new)>(xs: seq<T>, keep: T -> bool)
    requires Distinct(xs)
    ensures |Filter(xs, keep)| == |xs| - |Rejected(xs, keep)|
  {
    if |xs| > 0 {
      var tail := xs[1..];
      assert Distinct(tail);
      FilterLength(tail, keep);
      var dropped := Rejected(xs, keep);
      var droppedTail := Rejected(tail, keep);
      assert xs[0] !in tail;
      if keep(xs[0]) {
        assert dropped == droppedTail;
      } else {
        assert dropped == droppedTail + {xs[0]};
      }
    }
  }

  /** Two strictly sorted sequences with the same elements are equal. */
  lemma {:induction false} SortedUnique<T(!new)>(xs: seq<T>, ys: seq<T>, less: (T, T) -> bool)
    requires StrictTotalOrder(less)
    requires StrictlySorted(xs, less) && StrictlySorted(ys, less)
    requires forall y :: y in xs <==> y in ys
    ensures xs == ys
  {
    assert |xs| > 0 ==> xs[0] in ys;
    assert |ys| > 0 ==> ys[0] in xs;
    if |xs| > 0 && |ys| > 0 {
      assert xs[0] in ys && ys[0] in xs;
      assert xs[0] == ys[0];
      assert xs == [xs[0]] + xs[1..] && ys == [ys[0]] + ys[1..];
      forall y ensures y in xs[1..] ==> y in ys[1..] {
        if y in xs[1..] {
          var k :| 0 < k < |xs| && xs[k] == y;
          assert y in xs && y in ys;
          var l :| 0 <= l < |ys| && ys[l] == y;
          assert l != 0;
          assert ys[1..][l - 1] == y;
        }
      }
      forall y ensures y in ys[1..] ==> y in xs[1..] {
        if y in ys[1..] {
          var k :| 0 < k < |ys| && ys[k] == y;
          assert y in ys && y in xs;
          var l :| 0 <= l < |xs| && xs[l] == y;
          assert l != 0;
          assert xs[1..][l - 1] == y;
        }
      }
      SortedUnique(xs[1..], ys[1..], less);
      assert xs == [xs[0]] + xs[1..] && ys == [ys[0]] + ys[1..];
    }
  }
}
