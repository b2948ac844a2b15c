/**
 * The entropy of a variable (what `scipy.stats.entropy` returns for its
 * `prior`) and the conditional entropy of `cond_entropy` in fcbf/fcbf.py.
 * The natural logarithm is a parameter `ln`: nothing about it is assumed
 * except, in the sign lemmas, that it is not positive on probabilities.
 */
module Entropy {
  import opened Frequency

  /** What `ln` must do for entropies to be non-negative: ln(p) <= 0 for 0 < p <= 1. */
  ghost predicate NonPositiveOnProbabilities(ln: real -> real) {
    forall p: real :: 0.0 < p <= 1.0 ==> ln(p) <= 0.0
  }

  /** The sum of p * ln(p) over the masses the keys `ks` get in `m`. */
  function PLogP<T>(m: map<T, real>, ks: seq<T>, ln: real -> real): real
    requires forall k :: k in ks ==> k in m
  {
    if ks == [] then 0.0 else m[ks[0]] * ln(m[ks[0]]) + PLogP(m, ks[1..], ln)
  }

  lemma ProductNonPositive(a: real, b: real)
    requires a >= 0.0 && b <= 0.0
    ensures a * b <= 0.0
  {
  }

  lemma QuotientNonPositive(a: real, b: real)
    requires a <= 0.0 && b > 0.0
    ensures a / b <= 0.0
  {
  }

  lemma {:induction false} PLogPNonPositive<T>(m: map<T, real>, ks: seq<T>, ln: real -> real)
    requires forall k :: k in ks ==> k in m && 0.0 < m[k] <= 1.0
    requires NonPositiveOnProbabilities(ln)
    ensures PLogP(m, ks, ln) <= 0.0
  {
    if ks != [] {
      var p := m[ks[0]];
      ProductNonPositive(p, ln(p));
      PLogPNonPositive(m, ks[1..], ln);
    }
  }

  /**
   * `entropy(prior(xs), base=base)`: the sum of -p * ln(p) over the observed
   * values, divided by ln(base).
   */
  function EntropyOf<T(==, !new)>(xs: seq<T>, ln: real -> real, base: real): real
    requires ln(base) != 0.0
  {
    -(PLogP(Prior(xs), Distinct(xs), ln) / ln(base))
  }

  /** The guard `entropy_ < 0` cannot fire for a logarithm that is not positive on probabilities and a base above 1. */
  lemma EntropyNonNegative<T(!new)>(xs: seq<T>, ln: real -> real, base: real)
    requires NonPositiveOnProbabilities(ln) && ln(base) > 0.0
    ensures EntropyOf(xs, ln, base) >= 0.0
  {
    PLogPNonPositive(Prior(xs), Distinct(xs), ln);
    QuotientNonPositive(PLogP(Prior(xs), Distinct(xs), ln), ln(base));
  }

  /** For one class value y: the sum of P(x|y) * log_base P(x|y) over the values `ks` of x. */
  function InnerSum<X(==), Y(==)>(cp: map<(X, Y), real>, ks: seq<X>, y: Y, ln: real -> real, base: real): real
    requires ln(base) != 0.0
  {
    if ks == [] then 0.0
    else
      var term := if (ks[0], y) in cp then cp[(ks[0], y)] * (ln(cp[(ks[0], y)]) / ln(base)) else 0.0;
      term + InnerSum(cp, ks[1..], y, ln, base)
  }

  /** The sum over the class values `ys` of P(y) times the inner sum for y. */
  function WeightedSum<X(==), Y(==)>(py: map<Y, real>, cp: map<(X, Y), real>, ys: seq<Y>, ks: seq<X>,
                             ln: real -> real, base: real): real
    requires ln(base) != 0.0
    requires forall y :: y in ys ==> y in py
  {
    if ys == [] then 0.0
    else py[ys[0]] * InnerSum(cp, ks, ys[0], ln, base) + WeightedSum(py, cp, ys[1..], ks, ln, base)
  }

  lemma {:induction false} InnerSumNonPositive<X, Y>(cp: map<(X, Y), real>, ks: seq<X>, y: Y, ln: real -> real, base: real)
    requires ln(base) > 0.0
    requires NonPositiveOnProbabilities(ln)
    requires forall x :: (x, y) in cp ==> 0.0 < cp[(x, y)] <= 1.0
    ensures InnerSum(cp, ks, y, ln, base) <= 0.0
  {
    if ks != [] {
      if (ks[0], y) in cp {
        var p := cp[(ks[0], y)];
        QuotientNonPositive(ln(p), ln(base));
        ProductNonPositive(p, ln(p) / ln(base));
      }
      InnerSumNonPositive(cp, ks[1..], y, ln, base);
    }
  }

  lemma {:induction false} WeightedSumNonPositive<X, Y>(py: map<Y, real>, cp: map<(X, Y), real>, ys: seq<Y>, ks: seq<X>,
                                                          ln: real -> real, base: real)
    requires ln(base) > 0.0
    requires NonPositiveOnProbabilities(ln)
    requires forall y :: y in ys ==> y in py && py[y] > 0.0
    requires forall x, y :: (x, y) in cp ==> 0.0 < cp[(x, y)] <= 1.0
    ensures WeightedSum(py, cp, ys, ks, ln, base) <= 0.0
  {
    if ys != [] {
      InnerSumNonPositive(cp, ks, ys[0], ln, base);
      ProductNonPositive(py[ys[0]], InnerSum(cp, ks, ys[0], ln, base));
      WeightedSumNonPositive(py, cp, ys[1..], ks, ln, base);
    }
  }

  /**
   * `cond_entropy(xs, ys, base)`: minus the sum over the class values y of
   * prior(y) times the sum over x of P(x|y) * log_base P(x|y).
   */
  function CondEntropyOf<X(==, !new), Y(==, !new)>(xs: seq<X>, ys: seq<Y>, ln: real -> real, base: real): real
    requires |xs| == |ys|
    requires ln(base) != 0.0
  {
    -WeightedSum(Prior(ys), CondProba(xs, ys), Distinct(ys), Distinct(xs), ln, base)
  }

  lemma CondEntropyNonNegative<X(!new), Y(!new)>(xs: seq<X>, ys: seq<Y>, ln: real -> real, base: real)
    requires |xs| == |ys|
    requires NonPositiveOnProbabilities(ln) && ln(base) > 0.0
    ensures CondEntropyOf(xs, ys, ln, base) >= 0.0
  {
    WeightedSumNonPositive(Prior(ys), CondProba(xs, ys), Distinct(ys), Distinct(xs), ln, base);
  }
}
