/** Exact-arithmetic versions of the pandas/numpy statistics the metrics use:
    sum, mean, max and min are defined here; the two square-root based
    estimators (`Series.std()` and `np.corrcoef`) cannot be computed exactly
    and are parameters, bundled in `Estimators`, constrained by the
    properties the model relies on. */
module Stats {
  import opened Wrappers

  function Sum(xs: seq<real>): real
  {
    if xs == [] then 0.0 else Sum(xs[..|xs| - 1]) + xs[|xs| - 1]
  }

  function Mean(xs: seq<real>): real
    requires |xs| > 0
  {
    Sum(xs) / (|xs| as real)
  }

  function Max(xs: seq<real>): (m: real)
    requires |xs| > 0
    ensures forall i :: 0 <= i < |xs| ==> xs[i] <= m
    ensures exists i :: 0 <= i < |xs| && xs[i] == m
  {
    if |xs| == 1 then xs[0]
    else
      var m := Max(xs[..|xs| - 1]);
      if xs[|xs| - 1] > m then xs[|xs| - 1] else m
  }

  function Min(xs: seq<real>): (m: real)
    requires |xs| > 0
    ensures forall i :: 0 <= i < |xs| ==> m <= xs[i]
    ensures exists i :: 0 <= i < |xs| && xs[i] == m
  {
    if |xs| == 1 then xs[0]
    else
      var m := Min(xs[..|xs| - 1]);
      if xs[|xs| - 1] < m then xs[|xs| - 1] else m
  }

  predicate AllNonNegative(xs: seq<real>)
  {
    forall i :: 0 <= i < |xs| ==> xs[i] >= 0.0
  }

  /** All elements equal: the zero-spread case of every estimator. */
  predicate Constant(xs: seq<real>)
  {
    forall i, j :: 0 <= i < |xs| && 0 <= j < |xs| ==> xs[i] == xs[j]
  }

  lemma {:induction false} SumNonNegative(xs: seq<real>)
    requires AllNonNegative(xs)
    ensures Sum(xs) >= 0.0
  {
    if xs != [] {
      SumNonNegative(xs[..|xs| - 1]);
    }
  }

  lemma {:induction false} SumAtMost(xs: seq<real>, m: real)
    requires forall i :: 0 <= i < |xs| ==> xs[i] <= m
    ensures Sum(xs) <= (|xs| as real) * m
  {
    if xs != [] {
      SumAtMost(xs[..|xs| - 1], m);
    }
  }

  lemma {:induction false} SumAtLeast(xs: seq<real>, m: real)
    requires forall i :: 0 <= i < |xs| ==> m <= xs[i]
    ensures (|xs| as real) * m <= Sum(xs)
  {
    if xs != [] {
      SumAtLeast(xs[..|xs| - 1], m);
    }
  }

  /** With non-negative data, no element exceeds the total. */
  lemma {:induction false} ElementAtMostSum(xs: seq<real>, k: int)
    requires AllNonNegative(xs) && 0 <= k < |xs|
    ensures xs[k] <= Sum(xs)
  {
    var init := xs[..|xs| - 1];
    if k == |xs| - 1 {
      SumNonNegative(init);
    } else {
      ElementAtMostSum(init, k);
    }
  }

  lemma DivAtMost(s: real, n: real, m: real)
    requires n > 0.0 && s <= n * m
    ensures s / n <= m
  {
  }

  lemma DivAtLeast(s: real, n: real, m: real)
    requires n > 0.0 && n * m <= s
    ensures m <= s / n
  {
  }

  /** The mean lies between any lower and upper bound of the elements. */
  lemma MeanWithin(xs: seq<real>, lo: real, hi: real)
    requires |xs| > 0
    requires forall i :: 0 <= i < |xs| ==> lo <= xs[i] <= hi
    ensures lo <= Mean(xs) <= hi
  {
    SumAtMost(xs, hi);
    SumAtLeast(xs, lo);
    DivAtMost(Sum(xs), |xs| as real, hi);
    DivAtLeast(Sum(xs), |xs| as real, lo);
  }

  /** The mean of a sequence whose elements are all `c` is `c`. */
  lemma MeanOfConstant(xs: seq<real>, c: real)
    requires |xs| > 0
    requires forall i :: 0 <= i < |xs| ==> xs[i] == c
    ensures Mean(xs) == c
  {
    MeanWithin(xs, c, c);
  }

  /** A non-negative sequence sums to zero exactly when every element is zero. */
  lemma {:induction false} SumZeroIff(xs: seq<real>)
    requires AllNonNegative(xs)
    ensures Sum(xs) == 0.0 <==> forall i :: 0 <= i < |xs| ==> xs[i] == 0.0
  {
    if xs != [] {
      var init := xs[..|xs| - 1];
      SumZeroIff(init);
      SumNonNegative(init);
      if Sum(xs) == 0.0 {
        forall i | 0 <= i < |xs| ensures xs[i] == 0.0 {
          if i < |xs| - 1 { assert xs[i] == init[i]; }
        }
      } else {
        assert Sum(init) != 0.0 || xs[|xs| - 1] != 0.0;
        if Sum(init) != 0.0 {
          var k :| 0 <= k < |init| && init[k] != 0.0;
          assert xs[k] == init[k];
        }
      }
    }
  }

  /** The mean of a non-negative sequence is non-negative, and zero exactly
      when every element is zero. */
  lemma MeanZeroIff(xs: seq<real>)
    requires |xs| > 0 && AllNonNegative(xs)
    ensures Mean(xs) >= 0.0
    ensures Mean(xs) == 0.0 <==> forall i :: 0 <= i < |xs| ==> xs[i] == 0.0
  {
    SumZeroIff(xs);
    SumNonNegative(xs);
    DivZeroIff(Sum(xs), |xs| as real);
  }

  lemma DivZeroIff(s: real, n: real)
    requires s >= 0.0 && n > 0.0
    ensures s / n >= 0.0
    ensures s / n == 0.0 <==> s == 0.0
  {
  }

  /** The defined values of a sequence of optional values, in order: what
      survives a NaN filter. */
  function Present(xs: seq<Option<real>>): (r: seq<real>)
    ensures |r| <= |xs|
    ensures forall v :: v in r <==> Some(v) in xs
  {
    if xs == [] then []
    else
      var init := Present(xs[..|xs| - 1]);
      assert xs == xs[..|xs| - 1] + [xs[|xs| - 1]];
      if xs[|xs| - 1].Some? then init + [xs[|xs| - 1].value] else init
  }

  /** Nothing is present exactly when every value is undefined. */
  lemma PresentEmptyIff(xs: seq<Option<real>>)
    ensures Present(xs) == [] <==> forall i :: 0 <= i < |xs| ==> xs[i].None?
  {
    if Present(xs) != [] {
      var v := Present(xs)[0];
      assert v in Present(xs);
      var k :| 0 <= k < |xs| && xs[k] == Some(v);
    }
  }

  /** When every value is defined nothing is dropped. */
  lemma {:induction false} PresentAllDefined(xs: seq<Option<real>>)
    requires forall i :: 0 <= i < |xs| ==> xs[i].Some?
    ensures |Present(xs)| == |xs|
  {
    if xs != [] {
      PresentAllDefined(xs[..|xs| - 1]);
    }
  }

  /** The filter keeps order: the defined values of a concatenation are
      those of each part, one after the other. */
  lemma {:induction false} PresentAppend(xs: seq<Option<real>>, ys: seq<Option<real>>)
    ensures Present(xs + ys) == Present(xs) + Present(ys)
    decreases |ys|
  {
    if ys == [] {
      assert xs + ys == xs;
    } else {
      assert (xs + ys)[..|xs + ys| - 1] == xs + ys[..|ys| - 1];
      PresentAppend(xs, ys[..|ys| - 1]);
    }
  }

  /** The filter keeps multiplicity: a value survives exactly as often as
      it occurs defined. */
  lemma {:induction false} PresentCount(xs: seq<Option<real>>)
    ensures forall v :: multiset(Present(xs))[v] == multiset(xs)[Some(v)]
  {
    if xs != [] {
      var init := xs[..|xs| - 1];
      var last := xs[|xs| - 1];
      assert xs == init + [last];
      PresentCount(init);
    }
  }

  /** The two square-root based estimators of pandas/numpy:
      `std(xs)` is `Series.std()` (sample standard deviation, ddof = 1) and
      `corr(xs, ys)` is `np.corrcoef(xs, ys)[0, 1]`, with `None` for NaN. */
  datatype Estimators = Estimators(
    std: seq<real> -> real,
    corr: (seq<real>, seq<real>) -> Option<real>)

  /** What the model relies on about the standard deviation: it is
      non-negative and vanishes exactly when the values have no spread. */
  ghost predicate IsSampleStd(std: seq<real> -> real)
  {
    forall xs :: |xs| >= 2 ==> std(xs) >= 0.0 && (std(xs) == 0.0 <==> Constant(xs))
  }

  /** What the model relies on about the correlation: NaN exactly when one
      of the series has zero variance; otherwise in [-1, 1] (numpy clips
      its result to that interval); and a non-constant series correlates
      perfectly with itself. */
  ghost predicate IsPearson(corr: (seq<real>, seq<real>) -> Option<real>)
  {
    && (forall xs, ys :: |xs| == |ys| > 0 ==>
          && (corr(xs, ys).None? <==> Constant(xs) || Constant(ys))
          && (corr(xs, ys).Some? ==> -1.0 <= corr(xs, ys).value <= 1.0))
    && (forall xs :: |xs| > 0 && !Constant(xs) ==> corr(xs, xs) == Some(1.0))
  }

  ghost predicate ValidEstimators(est: Estimators)
  {
    IsSampleStd(est.std) && IsPearson(est.corr)
  }
}
