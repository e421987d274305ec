/**
 Sums of a real-valued function over the keys of a sequence, as used for row
 totals (`sum(axis=1)`), with the rearrangement facts the merge and the
 percentage transform need.
 */
module Sums {
  import opened Order

  /** The sum of `f` over the elements of `xs`, in order. */
  function SumOver<T>(xs: seq<T>, f: T -> real): real {
    if |xs| == 0 then 0.0 else f(xs[0]) + SumOver(xs[1..], f)
  }

  /** Sums only depend on the values of `f` at the listed keys. */
  lemma {:induction false} SumOverExt<T>(xs: seq<T>, f: T -> real, g: T -> real)
    requires forall i :: 0 <= i < |xs| ==> f(xs[i]) == g(xs[i])
    ensures SumOver(xs, f) == SumOver(xs, g)
  {
    if |xs| > 0 {
      SumOverExt(xs[1..], f, g);
    }
  }

  /**
   Changing `f` at one key that occurs once in `xs` changes the sum by the
   difference at that key.
   */
  lemma {:induction false} SumOverPointUpdate<T>(xs: seq<T>, f: T -> real, g: T -> real, c: T)
    requires Distinct(xs)
    requires c in xs
    requires forall i :: 0 <= i < |xs| && xs[i] != c ==> f(xs[i]) == g(xs[i])
    ensures SumOver(xs, g) == SumOver(xs, f) + (g(c) - f(c))
  {
    if xs[0] == c {
      assert forall i :: 0 <= i < |xs[1..]| ==> xs[1..][i] != c;
      SumOverExt(xs[1..], f, g);
    } else {
      assert Distinct(xs[1..]);
      SumOverPointUpdate(xs[1..], f, g, c);
    }
  }

  /** Scaling every term scales the sum. */
  lemma {:induction false} SumOverScale<T>(xs: seq<T>, f: T -> real, g: T -> real, k: real)
    requires forall i :: 0 <= i < |xs| ==> g(xs[i]) == k * f(xs[i])
    ensures SumOver(xs, g) == k * SumOver(xs, f)
  {
    if |xs| > 0 {
      SumOverScale(xs[1..], f, g, k);
    }
  }

  /** Dropping keys whose terms are zero does not change the sum. */
  lemma {:induction false} SumOverFilter<T(!new)>(xs: seq<T>, keep: T -> bool, f: T -> real)
    requires forall i :: 0 <= i < |xs| && !keep(xs[i]) ==> f(xs[i]) == 0.0
    ensures SumOver(Filter(xs, keep), f) == SumOver(xs, f)
  {
    if |xs| > 0 {
      SumOverFilter(xs[1..], keep, f);
    }
  }

  /**
   Changing `f` at two distinct keys that occur once each in `xs` changes the
   sum by the two differences.
   */
  lemma SumOverTwoPointUpdate<T>(xs: seq<T>, f: T -> real, g: T -> real, a: T, b: T)
    requires Distinct(xs)
    requires a in xs && b in xs && a != b
    requires forall i :: 0 <= i < |xs| && xs[i] != a && xs[i] != b ==> f(xs[i]) == g(xs[i])
    ensures SumOver(xs, g) == SumOver(xs, f) + (g(a) - f(a)) + (g(b) - f(b))
  {
    var h := x => if x == a then g(a) else f(x);
    SumOverPointUpdate(xs, f, h, a);
    SumOverPointUpdate(xs, h, g, b);
  }

  /** If every term of `g` is within `eps` of the matching term of `f`, the sums are within `|xs| * eps`. */
  lemma {:induction false} SumOverClose<T>(xs: seq<T>, f: T -> real, g: T -> real, eps: real)
    requires forall i :: 0 <= i < |xs| ==> f(xs[i]) - eps <= g(xs[i]) <= f(xs[i]) + eps
    ensures SumOver(xs, f) - |xs| as real * eps <= SumOver(xs, g) <= SumOver(xs, f) + |xs| as real * eps
  {
    if |xs| > 0 {
      SumOverClose(xs[1..], f, g, eps);
      assert |xs| as real * eps == eps + |xs[1..]| as real * eps;
    }
  }
}
