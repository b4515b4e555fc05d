/**
  Arithmetic in doubles, as far as its error matters: every operation rounds its exact result to a double
  within half a unit in the last place. Rounding is a parameter; what is assumed of it holds of every
  round-to-nearest double away from underflow and overflow.
 */
module Doubles {

  /** Half a unit in the last place of 1. */
  const U: real := 1.0 / 9_007_199_254_740_992.0

  predicate InRange(x: real)
  {
    x == 0.0 || 0.0001 <= x <= 1_000_000_000_000_000_000_000_000_000_000.0
  }

  ghost predicate RoundsToNearest(round: real -> real)
  {
    forall x :: InRange(x) ==> x - U * x <= round(x) <= x + U * x
  }

  /** Exact results that stay in range when they are off by a little. */
  predicate WellInside(e: real)
  {
    e == 0.0 || 0.001 <= e <= 100_000_000_000_000_000_000_000_000_000.0
  }

  predicate Small(d: real)
  {
    0.0 <= d <= 0.000_000_01
  }

  function Times(x: real, y: real): real
  {
    x * y
  }

  /** `x` is `e` up to a relative error of `d`. */
  predicate Near(x: real, e: real, d: real)
  {
    e - Times(d, e) <= x <= e + Times(d, e)
  }

  // ---------------------------------------------------------------- how errors grow

  /** An error smaller than one, of something not negative. */
  lemma PartOf(d: real, e: real)
    requires Small(d) && e >= 0.0
    ensures 0.0 <= Times(d, e) <= 0.5 * e
  {
    MoreError(0.0, d, e);
    MoreError(d, 0.5, e);
  }

  lemma MoreError(c: real, d: real, e: real)
    requires c <= d && e >= 0.0
    ensures Times(c, e) <= Times(d, e)
  {
  }

  lemma ErrorPlus(d: real, e: real)
    ensures Times(d + 2.0 * U, e) == Times(d, e) + 2.0 * U * e
  {
  }

  lemma RoundNear(round: real -> real, x: real, e: real, d: real)
    requires RoundsToNearest(round) && Near(x, e, d) && Small(d) && WellInside(e)
    ensures Near(round(x), e, d + 2.0 * U)
  {
    hide Times;
    PartOf(d, e);
    ErrorPlus(d, e);
    assert InRange(x);
  }

  lemma TimesMonotone(x: real, y: real, z: real)
    requires x <= y && z >= 0.0
    ensures Times(x, z) <= Times(y, z)
  {
  }

  lemma TimesDistributes(x: real, y: real, z: real)
    ensures Times(x + y, z) == Times(x, z) + Times(y, z)
    ensures Times(x - y, z) == Times(x, z) - Times(y, z)
  {
  }

  lemma TimesAssociates(x: real, y: real, z: real)
    ensures Times(Times(x, y), z) == Times(x, Times(y, z))
  {
  }

  lemma TimesNotNegative(x: real, y: real)
    requires x >= 0.0 && y >= 0.0
    ensures Times(x, y) >= 0.0
  {
  }

  lemma TimesConstant(a: real, y: real, f: real)
    requires a >= 0.0 && f - U * f <= y <= f + U * f
    ensures Times(a, f) - U * Times(a, f) <= Times(a, y) <= Times(a, f) + U * Times(a, f)
  {
    assert a * (f - U * f) <= a * y <= a * (f + U * f);
    assert a * (f - U * f) == a * f - U * (a * f) && a * (f + U * f) == a * f + U * (a * f);
  }

  /** A factor off by half a unit costs two. */
  lemma ProductNear(x: real, e: real, d: real, y: real, f: real)
    requires Near(x, e, d) && Small(d) && e >= 0.0 && f >= 0.0
    requires f - U * f <= y <= f + U * f
    ensures Near(Times(x, y), Times(e, f), d + 2.0 * U)
  {
    hide Times;
    var err := Times(d, e);
    PartOf(d, e);
    TimesNotNegative(e, f);
    PartOf(d, Times(e, f));
    TimesMonotone(e - err, x, y);
    TimesMonotone(x, e + err, y);
    TimesDistributes(e, err, y);
    TimesConstant(e, y, f);
    TimesConstant(err, y, f);
    TimesAssociates(d, e, f);
    ErrorPlus(d, Times(e, f));
  }

  // ---------------------------------------------------------------- products and sums as the source writes them

  /** `x * f0 * f1 * …`, exactly. */
  function Product(x: real, factors: seq<real>): real
    decreases |factors|
  {
    if factors == [] then x else Product(Times(x, factors[0]), factors[1..])
  }

  /** The same in doubles. */
  function ComputedProduct(round: real -> real, x: real, factors: seq<real>): real
    decreases |factors|
  {
    if factors == [] then x else ComputedProduct(round, round(Times(x, round(factors[0]))), factors[1..])
  }

  /** Every intermediate result is well inside the range. */
  predicate StaysInside(x: real, factors: seq<real>)
    decreases |factors|
  {
    && WellInside(x)
    && (factors != [] ==> WellInside(factors[0]) && StaysInside(Times(x, factors[0]), factors[1..]))
  }

  /** Each factor costs four half-units. */
  lemma {:induction false} ProductError(round: real -> real, x: real, e: real, d: real, factors: seq<real>)
    requires RoundsToNearest(round) && StaysInside(e, factors) && Near(x, e, d)
    requires 0.0 <= d && Small(d + |factors| as real * (4.0 * U))
    ensures Near(ComputedProduct(round, x, factors), Product(e, factors), d + |factors| as real * (4.0 * U))
    decreases |factors|
  {
    hide Near, Times;
    if factors != [] {
      var f := factors[0];
      assert f - U * f <= round(f) <= f + U * f by { assert InRange(f); }
      hide RoundsToNearest;
      ProductNear(x, e, d, round(f), f);
      RoundNear(round, Times(x, round(f)), Times(e, f), d + 2.0 * U);
      assert d + 2.0 * U + 2.0 * U == d + 4.0 * U;
      ProductError(round, round(Times(x, round(f))), Times(e, f), d + 4.0 * U, factors[1..]);
    }
  }

  /** Factors between a tenth and a thousand, up to three of them, leave a count inside. */
  lemma {:induction false} CountStaysInside(x: real, factors: seq<real>, low: real, high: real)
    requires forall i :: 0 <= i < |factors| ==> 0.1 <= factors[i] <= 1000.0
    requires x == 0.0 || low <= x <= high
    requires || (|factors| == 0 && 0.001 <= low && high <= 1_000_000_000_000_000_000_000_000_000.0)
             || (|factors| == 1 && 0.01 <= low && high <= 1_000_000_000_000_000_000_000_000.0)
             || (|factors| == 2 && 0.1 <= low && high <= 1_000_000_000_000_000_000_000.0)
             || (|factors| == 3 && 1.0 <= low && high <= 1_000_000_000_000_000_000.0)
    ensures StaysInside(x, factors)
    decreases |factors|
  {
    if factors != [] {
      var f := factors[0];
      FactorKeepsInside(x, f);
      hide Times;
      CountStaysInside(Times(x, f), factors[1..], 0.1 * low, 1000.0 * high);
    }
  }

  lemma FactorKeepsInside(x: real, f: real)
    requires x >= 0.0 && 0.1 <= f <= 1000.0
    ensures 0.1 * x <= Times(x, f) <= 1000.0 * x
    ensures x == 0.0 ==> Times(x, f) == 0.0
  {
    TimesMonotone(0.1, f, x);
    TimesMonotone(f, 1000.0, x);
  }

  function Sum(xs: seq<real>): real
  {
    if xs == [] then 0.0 else Sum(xs[..|xs| - 1]) + xs[|xs| - 1]
  }

  /** `x0 + x1 + …` in doubles. */
  function ComputedSum(round: real -> real, xs: seq<real>): real
  {
    if xs == [] then 0.0
    else if |xs| == 1 then xs[0]
    else round(ComputedSum(round, xs[..|xs| - 1]) + xs[|xs| - 1])
  }

  /** Each term of a sum costs two half-units. */
  lemma {:induction false} TermsError(round: real -> real, xs: seq<real>, es: seq<real>, d: real)
    requires RoundsToNearest(round) && |xs| == |es| && 0.0 <= d && Small(d + |xs| as real * (2.0 * U))
    requires forall i :: 0 <= i < |xs| ==> Near(xs[i], es[i], d) && (es[i] == 0.0 || es[i] >= 1.0)
    requires Sum(es) <= 1_000_000_000_000_000_000.0
    ensures Near(ComputedSum(round, xs), Sum(es), d + |xs| as real * (2.0 * U))
    ensures Sum(es) == 0.0 || Sum(es) >= 1.0
  {
    hide RoundsToNearest, Times;
    var n := |xs|;
    if n == 0 {
      NothingIsNear(d);
    } else {
      TermsError(round, xs[..n - 1], es[..n - 1], d);
      var x, e := ComputedSum(round, xs[..n - 1]), Sum(es[..n - 1]);
      var so := d + (n - 1) as real * (2.0 * U);
      if n == 1 {
        MoreError(d, d + 2.0 * U, es[0]);
      } else {
        SumError(round, x, e, xs[n - 1], es[n - 1], d, so);
      }
    }
  }

  lemma NothingIsNear(d: real)
    ensures Near(0.0, 0.0, d)
  {
  }

  /** Adding one more term costs two. */
  lemma SumError(round: real -> real, x: real, e: real, y: real, f: real, c: real, d: real)
    requires RoundsToNearest(round) && Near(x, e, d) && Near(y, f, c) && 0.0 <= c <= d && Small(d)
    requires WellInside(e + f) && f >= 0.0
    ensures Near(round(x + y), e + f, d + 2.0 * U)
  {
    MoreError(c, d, f);
    assert Times(d, e + f) == Times(d, e) + Times(d, f);
    hide Times;
    assert Near(x + y, e + f, d);
    RoundNear(round, x + y, e + f, d);
  }
}
