/** Shared vocabulary of the analysis: an optional value (Python's None / pandas' NaN)
    and the reductions pandas and numpy perform over a column of samples: sum, mean,
    minimum, maximum, sample variance, the number of true flags, and a percentage. */
module Common {

  datatype Option<T> = None | Some(value: T)

  /** Sum of a column, accumulated from the front as `Series.sum()` does. */
  function Sum(s: seq<real>): real
  {
    if s == [] then 0.0 else Sum(s[..|s| - 1]) + s[|s| - 1]
  }

  /** `Series.mean()` of a non-empty column. */
  function Mean(s: seq<real>): real
    requires |s| > 0
  {
    Sum(s) / |s| as real
  }

  /** `Series.max()` of a non-empty column. */
  function Max(s: seq<real>): (r: real)
    requires |s| > 0
    ensures forall i :: 0 <= i < |s| ==> s[i] <= r
    ensures exists i :: 0 <= i < |s| && s[i] == r
  {
    if |s| == 1 then s[0]
    else
      var m := Max(s[..|s| - 1]);
      if s[|s| - 1] > m then s[|s| - 1] else m
  }

  /** `Series.min()` of a non-empty column. */
  function Min(s: seq<real>): (r: real)
    requires |s| > 0
    ensures forall i :: 0 <= i < |s| ==> r <= s[i]
    ensures exists i :: 0 <= i < |s| && s[i] == r
  {
    if |s| == 1 then s[0]
    else
      var m := Min(s[..|s| - 1]);
      if s[|s| - 1] < m then s[|s| - 1] else m
  }

  /** Sum of squared deviations from `m`. */
  function SumSquaredDeviations(s: seq<real>, m: real): real
  {
    if s == [] then 0.0
    else SumSquaredDeviations(s[..|s| - 1], m) + (s[|s| - 1] - m) * (s[|s| - 1] - m)
  }

  /** The square of pandas' `std()` (ddof = 1). A window of fewer than two samples
      has no sample variance: pandas answers NaN there, modelled as None. */
  function SampleVariance(s: seq<real>): Option<real>
  {
    if |s| < 2 then None
    else Some(SumSquaredDeviations(s, Mean(s)) / (|s| - 1) as real)
  }

  /** `flags.sum()` on a boolean column: how many entries are true. */
  function CountTrue(flags: seq<bool>): (r: nat)
    ensures r <= |flags|
  {
    if flags == [] then 0
    else CountTrue(flags[..|flags| - 1]) + (if flags[|flags| - 1] then 1 else 0)
  }

  /** `(k / n) * 100` for a count `k` out of `n > 0` records. */
  function Percent(k: nat, n: nat): (r: real)
    requires 0 < n
    ensures k <= n ==> 0.0 <= r <= 100.0
    ensures k == 0 <==> r == 0.0
    ensures k == n <==> r == 100.0
  {
    k as real / n as real * 100.0
  }

  /** `int(np.ceil(x))`: the least integer not below `x`. */
  function Ceil(x: real): (r: int)
    ensures (r - 1) as real < x <= r as real
  {
    if x.Floor as real == x then x.Floor else x.Floor + 1
  }

  /** Every element of `s` lies in `[lo, hi]`, so the sum lies in `[|s| lo, |s| hi]`. */
  lemma {:induction false} SumBounds(s: seq<real>, lo: real, hi: real)
    requires forall i :: 0 <= i < |s| ==> lo <= s[i] <= hi
    ensures |s| as real * lo <= Sum(s) <= |s| as real * hi
  {
    if s != [] {
      SumBounds(s[..|s| - 1], lo, hi);
    }
  }

  /** A mean of values in `[lo, hi]` lies in `[lo, hi]`. */
  lemma MeanBounds(s: seq<real>, lo: real, hi: real)
    requires |s| > 0
    requires forall i :: 0 <= i < |s| ==> lo <= s[i] <= hi
    ensures lo <= Mean(s) <= hi
  {
    SumBounds(s, lo, hi);
    QuotientBounds(Sum(s), |s| as real, lo, hi);
  }

  /** A mean lies between the minimum and the maximum of what it averages. */
  lemma MeanBetweenMinAndMax(s: seq<real>)
    requires |s| > 0
    ensures Min(s) <= Mean(s) <= Max(s)
  {
    MeanBounds(s, Min(s), Max(s));
  }

  /** Dividing `n lo <= a <= n hi` by a positive `n`. */
  lemma QuotientBounds(a: real, n: real, lo: real, hi: real)
    requires 0.0 < n && n * lo <= a <= n * hi
    ensures lo <= a / n <= hi
  {
    assert a / n - lo == (a - n * lo) / n;
    assert hi - a / n == (n * hi - a) / n;
  }

  /** Adding up the flags of `a + b` is adding up each part. */
  lemma {:induction false} CountTrueAppend(a: seq<bool>, b: seq<bool>)
    ensures CountTrue(a + b) == CountTrue(a) + CountTrue(b)
  {
    if b != [] {
      assert (a + b)[..|a + b| - 1] == a + b[..|b| - 1];
      CountTrueAppend(a, b[..|b| - 1]);
    } else {
      assert a + b == a;
    }
  }

  /** A column with a false entry has fewer true entries than entries. */
  lemma {:induction false} CountTrueBelowLength(flags: seq<bool>, j: nat)
    requires j < |flags| && !flags[j]
    ensures CountTrue(flags) < |flags|
  {
    var p := flags[..|flags| - 1];
    if j < |flags| - 1 {
      CountTrueBelowLength(p, j);
    }
  }

  /** No entry is true exactly when the count is zero. */
  lemma {:induction false} CountTrueZeroIff(flags: seq<bool>)
    ensures CountTrue(flags) == 0 <==> forall i :: 0 <= i < |flags| ==> !flags[i]
  {
    if flags != [] {
      CountTrueZeroIff(flags[..|flags| - 1]);
    }
  }

  /** Every entry is true exactly when the count is the length. */
  lemma {:induction false} CountTrueFullIff(flags: seq<bool>)
    ensures CountTrue(flags) == |flags| <==> forall i :: 0 <= i < |flags| ==> flags[i]
  {
    if flags != [] {
      CountTrueFullIff(flags[..|flags| - 1]);
      if !flags[|flags| - 1] {
        CountTrueBelowLength(flags, |flags| - 1);
      }
    }
  }
}
