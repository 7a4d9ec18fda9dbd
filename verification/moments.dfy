/**
 * The arithmetic of weighted means the statistics rely on: bounds on a
 * first moment, and the expansion of the squared deviation from a mean
 * into the first two moments.
 */
module Moments {
  import opened Distribution

  function Identity(x: real): real
  {
    x
  }

  function Square(x: real): real
  {
    x * x
  }

  lemma MulMonotone(a: real, b: real, w: real)
    requires a <= b && 0.0 <= w
    ensures a * w <= b * w
  {
  }

  lemma MulDistrib(a: real, b: real, c: real)
    ensures a * (b + c) == a * b + a * c
  {
  }

  /** Each value at least `m` and each weight non-negative: the first moment is at least `m` times the mass. */
  lemma {:induction false} MomentAtLeast(d: seq<Entry<real>>, m: real)
    requires NonNegative(d)
    requires forall i :: 0 <= i < |d| ==> m <= d[i].value
    ensures m * Sum(d) <= Moment(d, Identity)
  {
    if |d| > 0 {
      MomentAtLeast(d[1..], m);
      MulMonotone(m, d[0].value, d[0].weight);
      MulDistrib(m, d[0].weight, Sum(d[1..]));
      assert Contribution(d[0], Identity) == d[0].value * d[0].weight;
      assert m * Sum(d) == m * d[0].weight + m * Sum(d[1..]);
    } else {
      assert m * Sum(d) == m * 0.0;
    }
  }

  /** Each value at most `m` and each weight non-negative: the first moment is at most `m` times the mass. */
  lemma {:induction false} MomentAtMost(d: seq<Entry<real>>, m: real)
    requires NonNegative(d)
    requires forall i :: 0 <= i < |d| ==> d[i].value <= m
    ensures Moment(d, Identity) <= m * Sum(d)
  {
    if |d| > 0 {
      MomentAtMost(d[1..], m);
      MulMonotone(d[0].value, m, d[0].weight);
      MulDistrib(m, d[0].weight, Sum(d[1..]));
      assert Contribution(d[0], Identity) == d[0].value * d[0].weight;
      assert m * Sum(d) == m * d[0].weight + m * Sum(d[1..]);
    } else {
      assert m * Sum(d) == m * 0.0;
    }
  }

  lemma DivideBound(e: real, w: real, m: real, lo: real, hi: real)
    requires 0.0 < w
    requires e * w == m
    requires lo * w <= m <= hi * w
    ensures lo <= e <= hi
  {
  }

  /** A weighted mean of values in `[lo, hi]` with non-negative weights lies in `[lo, hi]`. */
  lemma WeightedMeanBounds(d: seq<Entry<real>>, e: real, w: real, m: real, lo: real, hi: real)
    requires NonNegative(d)
    requires forall i :: 0 <= i < |d| ==> lo <= d[i].value <= hi
    requires w == Sum(d) && m == Moment(d, Identity)
    requires w != 0.0 && MeanOf(e, w, m)
    ensures lo <= e <= hi
  {
    MomentAtLeast(d, lo);
    MomentAtMost(d, hi);
    SumNonNegative(d);
    DivideBound(e, w, m, lo, hi);
  }

  lemma ScaledTotal(p: real, w: real, t: real)
    requires 0.0 <= p <= 1.0 && 0.0 <= w && t == p * w
    ensures 0.0 <= t <= w
    ensures 0.0 < w && p < 1.0 ==> t < w
  {
    MulMonotone(0.0, p, w);
    MulMonotone(p, 1.0, w);
  }

  /** `x -> (x - mu) ** 2`, the squared deviation from `mu`. */
  function DeviationFrom(mu: real): real -> real
  {
    x => Square(x - mu)
  }

  /**
   * The squared deviation from `mu` is affine in `x^2` and `x`, with the
   * coefficients `a = -2 mu` and `b = mu^2`.
   */
  lemma DeviationPointwise(mu: real)
    ensures AffineIn(DeviationFrom(mu), Square, Identity, -2.0 * mu, mu * mu)
  {
    var a, b := -2.0 * mu, mu * mu;
    forall x
      ensures AffineAt(DeviationFrom(mu), Square, Identity, a, b, x)
    {
      DeviationAt(mu, x);
    }
  }

  lemma DeviationAt(mu: real, x: real)
    ensures AffineAt(DeviationFrom(mu), Square, Identity, -2.0 * mu, mu * mu, x)
  {
    SquareExpansion(x, mu);
  }

  lemma SquareExpansion(x: real, mu: real)
    ensures Square(x - mu) == x * x + (-2.0 * mu) * x + mu * mu
  {
  }

  lemma SquareNonNegative(y: real)
    ensures 0.0 <= Square(y)
  {
    if y < 0.0 {
      ProductNonNegative(-y, -y);
    } else {
      ProductNonNegative(y, y);
    }
  }

  lemma DeviationNonNegative(d: seq<Entry<real>>, mu: real)
    requires NonNegative(d)
    ensures 0.0 <= Moment(d, DeviationFrom(mu))
  {
    var f := DeviationFrom(mu);
    forall x
      ensures 0.0 <= f(x)
    {
      assert f(x) == Square(x - mu);
      SquareNonNegative(x - mu);
    }
    MomentNonNegative(d, f);
  }

  /** `e` is a mean: `e` times the mass `w` is the moment `m`. */
  ghost predicate MeanOf(e: real, w: real, m: real)
  {
    e * w == m
  }

  /**
   * The facts the variance formula combines: `mu` and `e2` are the means
   * behind the moments `m1` and `m2`, `v = e2 - mu^2`, and `dev` is
   * `m2 + a * m1 + b * w` with `a = -2 mu` and `b = mu^2`.
   */
  ghost predicate CentralInputs(v: real, e2: real, mu: real, a: real, b: real, w: real, m1: real, m2: real, dev: real)
  {
    && a == -2.0 * mu && b == mu * mu
    && MeanOf(e2, w, m2) && MeanOf(mu, w, m1)
    && v == e2 - b
    && Combines(dev, m2, m1, w, a, b)
  }

  /** `(E[X^2] - mu^2) * w` expanded is `m2 - 2 mu m1 + mu^2 w`. */
  lemma CentralForm()
    ensures forall v, e2, mu, a, b, w, m1, m2, dev ::
              CentralInputs(v, e2, mu, a, b, w, m1, m2, dev) ==> MeanOf(v, w, dev)
  {
    forall v, e2, mu, a, b, w, m1, m2, dev | CentralInputs(v, e2, mu, a, b, w, m1, m2, dev)
      ensures MeanOf(v, w, dev)
    {
      assert v * w == e2 * w - b * w;
      assert a * m1 == -2.0 * mu * mu * w;
    }
  }

  /**
   * A mean carried over from one distribution to another of the same mass
   * whose moment of `h` is the first one's moment of `g`.
   */
  lemma MeanCarriedOver(sq: seq<Entry<real>>, d: seq<Entry<real>>, e: real, g: real -> real, h: real -> real)
    requires MeanOf(e, Sum(sq), Moment(sq, h))
    requires Sum(sq) == Sum(d) && Moment(sq, h) == Moment(d, g)
    ensures MeanOf(e, Sum(d), Moment(d, g))
  {
  }

  /**
   * For `f` the squared deviation from `mu`, written through `g(x) = x^2`
   * and `h(x) = x` with the coefficients `a = -2 mu` and `b = mu^2`: when
   * `mu` is the mean of `d` and `e2` its mean square, the mean of `f` over
   * `d` is `e2 - mu^2`.
   */
  lemma CentralFromMoments(d: seq<Entry<real>>, e2: real, mu: real, v: real, a: real, b: real,
                           f: real -> real, g: real -> real, h: real -> real)
    requires a == -2.0 * mu && b == mu * mu
    requires AffineIn(f, g, h, a, b)
    requires MeanOf(e2, Sum(d), Moment(d, g))
    requires MeanOf(mu, Sum(d), Moment(d, h))
    requires v == e2 - b
    ensures MeanOf(v, Sum(d), Moment(d, f))
  {
    MomentLinear(d, f, g, h, a, b);
    CentralForm();
    assert CentralInputs(v, e2, mu, a, b, Sum(d), Moment(d, h), Moment(d, g), Moment(d, f));
  }

  /** `e2` is the mean square of `d` and `v` its difference from the square of `mu`. */
  ghost predicate SquareMeanSplit(d: seq<Entry<real>>, e2: real, mu: real, v: real)
  {
    MeanOf(e2, Sum(d), Moment(d, Square)) && v == e2 - Square(mu)
  }

  /**
   * With `mu` the mean of `d`, the mean square less the squared mean is the
   * mean squared deviation from `mu`.
   */
  lemma CentralOfSplit(d: seq<Entry<real>>, e2: real, mu: real, v: real)
    requires MeanOf(mu, Sum(d), Moment(d, Identity))
    requires SquareMeanSplit(d, e2, mu, v)
    ensures MeanOf(v, Sum(d), Moment(d, DeviationFrom(mu)))
  {
    var a, b := -2.0 * mu, mu * mu;
    DeviationPointwise(mu);
    CentralFromMoments(d, e2, mu, v, a, b, DeviationFrom(mu), Square, Identity);
  }

  lemma SignOfQuotient(v: real, w: real, c: real)
    requires 0.0 < w && MeanOf(v, w, c) && 0.0 <= c
    ensures 0.0 <= v
  {
  }
}
