/**
 * `information_gain` and `symmetrical_uncertainty` of fcbf/fcbf.py: the
 * guards and formulas over entropy values, first for given entropies and
 * then for the entropies computed from two aligned variables.
 */
module Association {
  import opened Outcomes
  import opened Entropy

  /** The two `RuntimeError`s of `information_gain`. */
  datatype ScoreError =
    | NegativeEntropy          // 'entropy < 0 detected.'
    | EntropyBelowCondEntropy  // 'entropy < associated conditional entropy detected.'

  /**
   * Information gain from the entropy of X and the conditional entropy of X
   * given y: the negative-entropy guard is checked first, then the
   * negative-gain guard; otherwise the gain, which is never negative.
   */
  function Gain(entropy: real, condEntropy: real): (r: Result<real, ScoreError>)
    ensures r == Err(NegativeEntropy) <==> entropy < 0.0
    ensures r == Err(EntropyBelowCondEntropy) <==> 0.0 <= entropy < condEntropy
    ensures r.Ok? <==> 0.0 <= entropy && condEntropy <= entropy
    ensures r.Ok? ==> r.value >= 0.0 && r.value + condEntropy == entropy
  {
    if entropy < 0.0 then Err(NegativeEntropy)
    else if entropy < condEntropy then Err(EntropyBelowCondEntropy)
    else Ok(entropy - condEntropy)
  }

  lemma NormalisedGainBounds(g: real, d: real)
    requires d != 0.0
    ensures g >= 0.0 && d > 0.0 ==> 2.0 * g / d >= 0.0 && (2.0 * g / d == 0.0 <==> g == 0.0)
  {
  }

  /**
   * Symmetrical uncertainty from the entropies of X and y and the conditional
   * entropy of X given y: it fails exactly when `Gain` does, with the same
   * error; otherwise it is 2 * gain / (H(X) + H(y)), which is zero exactly
   * when the gain is and is not negative when H(y) is not. The division is
   * reached only when `Gain` succeeds, and only there must its divisor be
   * non-zero.
   */
  function Su(entropyX: real, entropyY: real, condEntropy: real): (r: Result<real, ScoreError>)
    requires Gain(entropyX, condEntropy).Ok? ==> entropyX + entropyY != 0.0
    ensures r.Err? <==> Gain(entropyX, condEntropy).Err?
    ensures r.Err? ==> r.error == Gain(entropyX, condEntropy).error
    ensures r.Ok? && entropyY >= 0.0 ==> r.value >= 0.0
    ensures r.Ok? && entropyY >= 0.0 ==> (r.value == 0.0 <==> entropyX == condEntropy)
  {
    match Gain(entropyX, condEntropy)
    case Err(e) => Err(e)
    case Ok(g) =>
      var d := entropyX + entropyY;
      NormalisedGainBounds(g, d);
      Ok(2.0 * g / d)
  }

  /** `information_gain(X, y, base)`: `Gain` of H(X) and H(X|y). */
  function InformationGain<X(==, !new), Y(==, !new)>(xs: seq<X>, ys: seq<Y>, ln: real -> real, base: real): Result<real, ScoreError>
    requires |xs| == |ys|
    requires ln(base) != 0.0
  {
    Gain(EntropyOf(xs, ln, base), CondEntropyOf(xs, ys, ln, base))
  }

  /**
   * `symmetrical_uncertainty(X, y, base)`: `Su` of H(X), H(y) and H(X|y).
   * The source divides by H(X) + H(y) without a guard once the gain is
   * computed; that sum must then not be 0.
   */
  function SymmetricalUncertainty<X(==, !new), Y(==, !new)>(xs: seq<X>, ys: seq<Y>, ln: real -> real, base: real): Result<real, ScoreError>
    requires |xs| == |ys|
    requires ln(base) != 0.0
    requires InformationGain(xs, ys, ln, base).Ok? ==> EntropyOf(xs, ln, base) + EntropyOf(ys, ln, base) != 0.0
  {
    Su(EntropyOf(xs, ln, base), EntropyOf(ys, ln, base), CondEntropyOf(xs, ys, ln, base))
  }

  /**
   * With a logarithm that is not positive on probabilities and a base above
   * 1, `information_gain` never raises the negative-entropy error: the only
   * possible error is the negative-gain one, and a result is never negative.
   */
  lemma InformationGainOnlyFailsOnGain<X(!new), Y(!new)>(xs: seq<X>, ys: seq<Y>, ln: real -> real, base: real)
    requires |xs| == |ys|
    requires NonPositiveOnProbabilities(ln) && ln(base) > 0.0
    ensures InformationGain(xs, ys, ln, base) != Err(NegativeEntropy)
    ensures InformationGain(xs, ys, ln, base).Err? <==> EntropyOf(xs, ln, base) < CondEntropyOf(xs, ys, ln, base)
  {
    EntropyNonNegative(xs, ln, base);
  }

  /**
   * With such a logarithm, a symmetrical uncertainty that is computed is in
   * [0, +inf), and it is 0 exactly when H(X | y) = H(X).
   */
  lemma SymmetricalUncertaintyNonNegative<X(!new), Y(!new)>(xs: seq<X>, ys: seq<Y>, ln: real -> real, base: real)
    requires |xs| == |ys|
    requires NonPositiveOnProbabilities(ln) && ln(base) > 0.0
    requires InformationGain(xs, ys, ln, base).Ok? ==> EntropyOf(xs, ln, base) + EntropyOf(ys, ln, base) != 0.0
    ensures SymmetricalUncertainty(xs, ys, ln, base).Err? <==> EntropyOf(xs, ln, base) < CondEntropyOf(xs, ys, ln, base)
    ensures var r := SymmetricalUncertainty(xs, ys, ln, base);
      r.Ok? ==> r.value >= 0.0 && (r.value == 0.0 <==> EntropyOf(xs, ln, base) == CondEntropyOf(xs, ys, ln, base))
  {
    EntropyNonNegative(xs, ln, base);
    EntropyNonNegative(ys, ln, base);
  }
}
