/** Column statistics as pandas computes them: `mean` (NaN-skipping, NaN when
    nothing is left), `idxmin`/`idxmax` (first occurrence, NaN-skipping). */
module Stats {
  import opened Wrappers

  function Sum(xs: seq<real>): real
  {
    if xs == [] then 0.0 else xs[0] + Sum(xs[1..])
  }

  /** Arithmetic mean; the mean of no values is missing (NaN). */
  function Mean(xs: seq<real>): (m: Option<real>)
    ensures m.None? <==> xs == []
    ensures m.Some? ==> m.value * (|xs| as real) == Sum(xs)
  {
    if xs == [] then None else Some(Sum(xs) / (|xs| as real))
  }

  lemma {:induction false} SumBounds(xs: seq<real>, lo: real, hi: real)
    requires forall i :: 0 <= i < |xs| ==> lo <= xs[i] <= hi
    ensures (|xs| as real) * lo <= Sum(xs) <= (|xs| as real) * hi
  {
    if xs != [] {
      SumBounds(xs[1..], lo, hi);
    }
  }

  /** Dividing by a positive count keeps bounds that hold for the count multiples. */
  lemma {:induction false} DivideBounds(a: real, n: real, lo: real, hi: real)
    requires n > 0.0 && n * lo <= a <= n * hi
    ensures lo <= a / n <= hi
  {
    var q := a / n;
    assert (q - lo) * n == a - n * lo;
    assert (hi - q) * n == n * hi - a;
  }

  /** A mean lies between any bounds of its values. */
  lemma {:induction false} MeanBounds(xs: seq<real>, lo: real, hi: real)
    requires forall i :: 0 <= i < |xs| ==> lo <= xs[i] <= hi
    ensures Mean(xs).Some? ==> lo <= Mean(xs).value <= hi
  {
    if xs != [] {
      SumBounds(xs, lo, hi);
      DivideBounds(Sum(xs), |xs| as real, lo, hi);
    }
  }

  /** The mean of a constant column is that constant. */
  lemma {:induction false} MeanOfConstant(xs: seq<real>, c: real)
    requires xs != [] && forall i :: 0 <= i < |xs| ==> xs[i] == c
    ensures Mean(xs) == Some(c)
  {
    MeanBounds(xs, c, c);
  }

  /** The present (non-NaN) values of a column, in order. */
  function Present(xs: seq<Option<real>>): (vs: seq<real>)
    ensures |vs| <= |xs|
    ensures vs == [] <==> forall i :: 0 <= i < |xs| ==> xs[i].None?
  {
    if xs == [] then []
    else (if xs[0].Some? then [xs[0].value] else []) + Present(xs[1..])
  }

  /** The present values are exactly the column's non-NaN entries, each as
      often as it occurs. */
  lemma {:induction false} PresentKeepsValues(xs: seq<Option<real>>)
    ensures forall x :: multiset(Present(xs))[x] == multiset(xs)[Some(x)]
  {
    if xs != [] {
      PresentKeepsValues(xs[1..]);
      assert xs == [xs[0]] + xs[1..];
    }
  }

  /** Every present value comes from some position of the column. */
  lemma {:induction false} PresentOrigin(xs: seq<Option<real>>, k: nat) returns (i: nat)
    requires k < |Present(xs)|
    ensures i < |xs| && xs[i] == Some(Present(xs)[k])
  {
    var t := Present(xs[1..]);
    assert Present(xs) == (if xs[0].Some? then [xs[0].value] else []) + t;
    if xs[0].Some? && k == 0 {
      i := 0;
    } else {
      var d := if xs[0].Some? then 1 else 0;
      assert Present(xs)[k] == t[k - d];
      var j := PresentOrigin(xs[1..], k - d);
      i := j + 1;
    }
  }

  /** pandas `Series.mean()`: the mean of the present values, skipping NaN. */
  function ColumnMean(xs: seq<Option<real>>): (m: Option<real>)
    ensures m.None? <==> forall i :: 0 <= i < |xs| ==> xs[i].None?
    ensures m.Some? ==> m.value * (|Present(xs)| as real) == Sum(Present(xs))
  {
    Mean(Present(xs))
  }

  /** A NaN-skipping mean lies between any bounds of the present values. */
  lemma {:induction false} ColumnMeanBounds(xs: seq<Option<real>>, lo: real, hi: real)
    requires forall i :: 0 <= i < |xs| && xs[i].Some? ==> lo <= xs[i].value <= hi
    ensures ColumnMean(xs).Some? ==> lo <= ColumnMean(xs).value <= hi
  {
    var vs := Present(xs);
    forall k | 0 <= k < |vs| ensures lo <= vs[k] <= hi {
      var i := PresentOrigin(xs, k);
    }
    MeanBounds(vs, lo, hi);
  }

  /** Subtraction of possibly missing values; NaN on either side gives NaN. */
  function Difference(a: Option<real>, b: Option<real>): (d: Option<real>)
    ensures d.Some? <==> a.Some? && b.Some?
    ensures d.Some? ==> d.value + b.value == a.value
  {
    if a.Some? && b.Some? then Some(a.value - b.value) else None
  }

  /** pandas `idxmin`: the first position holding the smallest present value,
      missing when no value is present. */
  function ArgMin(xs: seq<Option<real>>): (k: Option<nat>)
    ensures k.None? <==> forall i :: 0 <= i < |xs| ==> xs[i].None?
    ensures k.Some? ==> k.value < |xs| && xs[k.value].Some?
    ensures k.Some? ==> forall i :: 0 <= i < |xs| && xs[i].Some? ==> xs[k.value].value <= xs[i].value
    ensures k.Some? ==> forall i :: 0 <= i < k.value && xs[i].Some? ==> xs[k.value].value < xs[i].value
    decreases |xs|
  {
    if xs == [] then None
    else
      var rest := ArgMin(xs[1..]);
      if xs[0].None? then
        (if rest.None? then None else Some(rest.value + 1))
      else if rest.None? || xs[0].value <= xs[rest.value + 1].value then Some(0)
      else Some(rest.value + 1)
  }

  /** pandas `idxmax`: the first position holding the largest present value,
      missing when no value is present. */
  function ArgMax(xs: seq<Option<real>>): (k: Option<nat>)
    ensures k.None? <==> forall i :: 0 <= i < |xs| ==> xs[i].None?
    ensures k.Some? ==> k.value < |xs| && xs[k.value].Some?
    ensures k.Some? ==> forall i :: 0 <= i < |xs| && xs[i].Some? ==> xs[i].value <= xs[k.value].value
    ensures k.Some? ==> forall i :: 0 <= i < k.value && xs[i].Some? ==> xs[i].value < xs[k.value].value
    decreases |xs|
  {
    if xs == [] then None
    else
      var rest := ArgMax(xs[1..]);
      if xs[0].None? then
        (if rest.None? then None else Some(rest.value + 1))
      else if rest.None? || xs[0].value >= xs[rest.value + 1].value then Some(0)
      else Some(rest.value + 1)
  }

  /** The minimum found is never above the maximum found. */
  lemma {:induction false} ArgMinBelowArgMax(xs: seq<Option<real>>)
    ensures ArgMin(xs).Some? <==> ArgMax(xs).Some?
    ensures ArgMin(xs).Some? ==> xs[ArgMin(xs).value].value <= xs[ArgMax(xs).value].value
  {
  }
}
