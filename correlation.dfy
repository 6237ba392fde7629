/** Pearson's correlation coefficient as `np.corrcoef` computes it for two
    columns. The reals have no square root, so the coefficient
    r = Sxy / sqrt(Sxx * Syy) is represented by its three co-moments, and a
    threshold test on r by an equivalent test on them (`ThresholdByMoments`). */
module Correlation {
  import opened Wrappers
  import opened Stats

  // ---------------------------------------------------------------------
  // Products. Every product of two unknowns goes through `Mul`, so that the
  // proofs below reason about products as terms, with the few facts they
  // need stated once in the lemmas that follow.

  function Mul(a: real, b: real): real
  {
    a * b
  }

  lemma {:induction false} MulSign(a: real, b: real)
    requires b > 0.0
    ensures Mul(a, b) > 0.0 <==> a > 0.0
    ensures Mul(a, b) < 0.0 <==> a < 0.0
    ensures Mul(a, b) == 0.0 <==> a == 0.0
  {
    if a > 0.0 {
      assert a * b > 0.0;
    } else if a < 0.0 {
      assert (-a) * b > 0.0;
      assert a * b == -((-a) * b);
    }
  }

  lemma {:induction false} MulCommutes(a: real, b: real)
    ensures Mul(a, b) == Mul(b, a)
  {
  }

  lemma {:induction false} MulNegates(a: real, b: real)
    ensures Mul(-a, b) == -Mul(a, b) && Mul(a, -b) == -Mul(a, b) && Mul(-a, -b) == Mul(a, b)
  {
  }

  lemma {:induction false} MulOne(a: real)
    ensures Mul(1.0, a) == a
  {
  }

  lemma {:induction false} MulRegroup(r: real, s: real)
    ensures Mul(Mul(r, s), Mul(r, s)) == Mul(Mul(r, r), Mul(s, s))
  {
    assert (r * s) * (r * s) == (r * r) * (s * s);
  }

  /** Multiplying by a positive factor keeps a strict order, both ways. */
  lemma {:induction false} MulCancel(a: real, b: real, c: real)
    requires c > 0.0
    ensures Mul(a, c) > Mul(b, c) <==> a > b
  {
    MulSign(a - b, c);
    assert Mul(a - b, c) == Mul(a, c) - Mul(b, c) by {
      assert (a - b) * c == a * c - b * c;
    }
  }

  lemma {:induction false} SquareSign(d: real)
    ensures Mul(d, d) >= 0.0
    ensures d != 0.0 ==> Mul(d, d) > 0.0
  {
    if d > 0.0 {
      MulSign(d, d);
    } else if d < 0.0 {
      MulSign(-d, -d);
      MulNegates(d, d);
    }
  }

  /** For t >= 0: r > t exactly when r > 0 and r^2 > t^2. */
  lemma {:induction false} SquareCompare(r: real, t: real)
    requires t >= 0.0
    ensures r > t <==> r > 0.0 && Mul(r, r) > Mul(t, t)
  {
    assert Mul(r, r) - Mul(t, t) == Mul(r - t, r + t) by {
      assert r * r - t * t == (r - t) * (r + t);
    }
    if r + t > 0.0 {
      MulSign(r - t, r + t);
    }
    if r > 0.0 && Mul(r, r) > Mul(t, t) {
      assert r + t > 0.0;
    }
  }

  lemma {:induction false} SquareBelowOne(t: real)
    requires 0.0 <= t < 1.0
    ensures Mul(t, t) < 1.0
  {
    SquareCompare(1.0, t);
  }

  // ---------------------------------------------------------------------
  // Columns

  /** No entry of the column is NaN. */
  predicate AllPresent(xs: seq<Option<real>>)
  {
    forall i :: 0 <= i < |xs| ==> xs[i].Some?
  }

  /** The values of a column without NaN. */
  function Values(xs: seq<Option<real>>): (vs: seq<real>)
    requires AllPresent(xs)
    ensures |vs| == |xs| && forall i :: 0 <= i < |xs| ==> xs[i] == Some(vs[i])
  {
    seq(|xs|, i requires 0 <= i < |xs| => xs[i].value)
  }

  /** Every value equals the first. */
  predicate IsConstant(vs: seq<real>)
  {
    forall i :: 0 <= i < |vs| ==> vs[i] == vs[0]
  }

  /** The sum of (x - mx) * (y - my) over paired values. */
  function CoMoment(xs: seq<real>, mx: real, ys: seq<real>, my: real): real
    requires |xs| == |ys|
  {
    if xs == [] then 0.0 else Mul(xs[0] - mx, ys[0] - my) + CoMoment(xs[1..], mx, ys[1..], my)
  }

  /** Sxy, Sxx and Syy of two paired columns. */
  datatype Moments = Moments(sxy: real, sxx: real, syy: real)

  function MomentsOf(xs: seq<real>, ys: seq<real>): Moments
    requires |xs| == |ys| && xs != []
  {
    var mx := Mean(xs).value;
    var my := Mean(ys).value;
    Moments(CoMoment(xs, mx, ys, my), CoMoment(xs, mx, xs, mx), CoMoment(ys, my, ys, my))
  }

  /** A sum of squared deviations is never negative, and it is zero exactly
      when every value is the centre. */
  lemma {:induction false} SquaresZeroIff(xs: seq<real>, m: real)
    ensures CoMoment(xs, m, xs, m) >= 0.0
    ensures CoMoment(xs, m, xs, m) == 0.0 <==> forall i :: 0 <= i < |xs| ==> xs[i] == m
  {
    if xs != [] {
      SquaresZeroIff(xs[1..], m);
      SquareSign(xs[0] - m);
      if forall i :: 0 <= i < |xs| ==> xs[i] == m {
        forall i | 0 <= i < |xs[1..]| ensures xs[1..][i] == m {
          assert xs[1..][i] == xs[i + 1];
        }
      }
      if CoMoment(xs, m, xs, m) == 0.0 {
        forall i | 0 <= i < |xs| ensures xs[i] == m {
          if i > 0 { assert xs[i] == xs[1..][i - 1]; }
        }
      }
    }
  }

  /** The variance of a non-empty column is zero exactly when it is constant. */
  lemma {:induction false} VarianceZeroIffConstant(vs: seq<real>)
    requires vs != []
    ensures CoMoment(vs, Mean(vs).value, vs, Mean(vs).value) >= 0.0
    ensures CoMoment(vs, Mean(vs).value, vs, Mean(vs).value) == 0.0 <==> IsConstant(vs)
  {
    var m := Mean(vs).value;
    SquaresZeroIff(vs, m);
    if IsConstant(vs) {
      MeanOfConstant(vs, vs[0]);
    }
  }

  /** `np.corrcoef(xs, ys)[0, 1]`: the co-moments when r is a number, `None`
      when it is NaN, which happens for a NaN entry or a constant (or empty)
      column, where the standard deviation it divides by is zero. */
  function PearsonMoments(xs: seq<Option<real>>, ys: seq<Option<real>>): (m: Option<Moments>)
    requires |xs| == |ys|
    ensures m.None? <==>
      !AllPresent(xs) || !AllPresent(ys) || IsConstant(Values(xs)) || IsConstant(Values(ys))
    ensures m.Some? ==> m.value.sxx > 0.0 && m.value.syy > 0.0
  {
    if xs == [] || !AllPresent(xs) || !AllPresent(ys) then None
    else
      var mo := MomentsOf(Values(xs), Values(ys));
      VarianceZeroIffConstant(Values(xs));
      VarianceZeroIffConstant(Values(ys));
      if mo.sxx == 0.0 || mo.syy == 0.0 then None else Some(mo)
  }

  /** r > t, for t >= 0, stated on the co-moments. */
  predicate Exceeds(mo: Moments, t: real)
  {
    mo.sxy > 0.0 && Mul(mo.sxy, mo.sxy) > Mul(Mul(t, t), Mul(mo.sxx, mo.syy))
  }

  /** r < -t, for t >= 0, stated on the co-moments. */
  predicate FallsBelow(mo: Moments, t: real)
  {
    mo.sxy < 0.0 && Mul(mo.sxy, mo.sxy) > Mul(Mul(t, t), Mul(mo.sxx, mo.syy))
  }

  /** With `s` the square root of Sxx * Syy and `r` the coefficient
      (r * s == Sxy, that is r = Sxy / s), the co-moment tests are exactly
      the tests r > t and r < -t. */
  lemma {:induction false} ThresholdByMoments(mo: Moments, s: real, r: real, t: real)
    requires s > 0.0 && Mul(s, s) == Mul(mo.sxx, mo.syy) && Mul(r, s) == mo.sxy && t >= 0.0
    ensures r > t <==> Exceeds(mo, t)
    ensures r < -t <==> FallsBelow(mo, t)
  {
    MulSign(r, s);
    MulSign(s, s);
    MulRegroup(r, s);
    MulCancel(Mul(r, r), Mul(t, t), Mul(s, s));
    MulCommutes(Mul(r, r), Mul(s, s));
    MulCommutes(Mul(t, t), Mul(s, s));
    SquareCompare(r, t);
    SquareCompare(-r, t);
    MulNegates(r, r);
  }

  /** The co-moment of paired columns does not depend on their order. */
  lemma {:induction false} CoMomentSymmetric(xs: seq<real>, mx: real, ys: seq<real>, my: real)
    requires |xs| == |ys|
    ensures CoMoment(xs, mx, ys, my) == CoMoment(ys, my, xs, mx)
  {
    if xs != [] {
      CoMomentSymmetric(xs[1..], mx, ys[1..], my);
      MulCommutes(xs[0] - mx, ys[0] - my);
    }
  }

  /** Flips the sign of every present value. */
  function Negated(xs: seq<Option<real>>): (ns: seq<Option<real>>)
    ensures |ns| == |xs|
    ensures forall i :: 0 <= i < |xs| ==> ns[i] == if xs[i].Some? then Some(-xs[i].value) else None
  {
    seq(|xs|, i requires 0 <= i < |xs| => if xs[i].Some? then Some(-xs[i].value) else None)
  }

  function NegatedValues(vs: seq<real>): (ns: seq<real>)
    ensures |ns| == |vs| && forall i :: 0 <= i < |vs| ==> ns[i] == -vs[i]
  {
    seq(|vs|, i requires 0 <= i < |vs| => -vs[i])
  }

  lemma {:induction false} SumNegated(vs: seq<real>)
    ensures Sum(NegatedValues(vs)) == -Sum(vs)
  {
    if vs != [] {
      SumNegated(vs[1..]);
      assert NegatedValues(vs)[1..] == NegatedValues(vs[1..]);
    }
  }

  lemma {:induction false} MeanNegated(vs: seq<real>)
    requires vs != []
    ensures Mean(NegatedValues(vs)) == Some(-Mean(vs).value)
  {
    SumNegated(vs);
    var n := |vs| as real;
    assert (-Sum(vs)) / n == -(Sum(vs) / n);
  }

  lemma {:induction false} CoMomentNegated(xs: seq<real>, mx: real, ys: seq<real>, my: real)
    requires |xs| == |ys|
    ensures CoMoment(xs, mx, NegatedValues(ys), -my) == -CoMoment(xs, mx, ys, my)
    ensures CoMoment(NegatedValues(ys), -my, NegatedValues(ys), -my) == CoMoment(ys, my, ys, my)
  {
    if xs != [] {
      var ns := NegatedValues(ys);
      CoMomentNegated(xs[1..], mx, ys[1..], my);
      assert ns[1..] == NegatedValues(ys[1..]);
      var dy := ys[0] - my;
      assert ns[0] - -my == -dy;
      MulNegates(xs[0] - mx, dy);
      MulNegates(dy, dy);
    }
  }

  /** Swapping the two columns leaves the correlation unchanged. */
  lemma {:induction false} PearsonSymmetric(xs: seq<Option<real>>, ys: seq<Option<real>>)
    requires |xs| == |ys|
    ensures PearsonMoments(xs, ys).Some? <==> PearsonMoments(ys, xs).Some?
    ensures PearsonMoments(xs, ys).Some? ==>
      var m := PearsonMoments(xs, ys).value;
      PearsonMoments(ys, xs) == Some(Moments(m.sxy, m.syy, m.sxx))
  {
    if PearsonMoments(xs, ys).Some? {
      var vx := Values(xs);
      var vy := Values(ys);
      CoMomentSymmetric(vx, Mean(vx).value, vy, Mean(vy).value);
    }
  }

  /** Negating one column negates r and leaves whether it is defined unchanged. */
  lemma {:induction false} PearsonNegated(xs: seq<Option<real>>, ys: seq<Option<real>>)
    requires |xs| == |ys|
    ensures PearsonMoments(xs, Negated(ys)).Some? <==> PearsonMoments(xs, ys).Some?
    ensures PearsonMoments(xs, ys).Some? ==>
      var m := PearsonMoments(xs, ys).value;
      PearsonMoments(xs, Negated(ys)) == Some(Moments(-m.sxy, m.sxx, m.syy))
  {
    var ns := Negated(ys);
    assert AllPresent(ns) <==> AllPresent(ys);
    if AllPresent(ys) {
      var vy := Values(ys);
      assert Values(ns) == NegatedValues(vy);
      assert IsConstant(Values(ns)) <==> IsConstant(vy);
      if xs != [] && AllPresent(xs) {
        var vx := Values(xs);
        MeanNegated(vy);
        CoMomentNegated(vx, Mean(vx).value, vy, Mean(vy).value);
      }
    }
  }

  /** A non-constant NaN-free column correlates with itself (r = 1). */
  lemma {:induction false} PearsonSelf(xs: seq<Option<real>>, t: real)
    requires AllPresent(xs) && !IsConstant(Values(xs)) && 0.0 <= t < 1.0
    ensures PearsonMoments(xs, xs).Some? && Exceeds(PearsonMoments(xs, xs).value, t)
  {
    var mo := PearsonMoments(xs, xs).value;
    var v := mo.sxx;
    assert mo.sxy == v && mo.syy == v;
    SquareSign(v);
    SquareBelowOne(t);
    MulCancel(1.0, Mul(t, t), Mul(v, v));
    MulOne(Mul(v, v));
    MulCommutes(Mul(t, t), Mul(v, v));
    MulCommutes(1.0, Mul(v, v));
  }
}
