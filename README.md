# FCBF feature selection in Dafny

This project models `fcbf/fcbf.py`, the fast correlation-based filter (FCBF) of Yu and Liu, and proves properties of the model. FCBF scores each column of a categorical data table by its symmetrical uncertainty (SU) with the class. It keeps the columns whose score reaches a threshold and ranks them by decreasing score. Walking the ranking once, it removes every feature that an earlier, still-present feature predicts at least as well as the class does. It returns three things:

- the surviving features, in rank order;
- the removed and below-threshold features;
- the class score of every ranked feature.

The project has eight modules, one per file:

- `Outcomes`: `Result`, which stands for a raised Python exception.
- `Frequency`: `prior` and `cond_proba`, computed as exact counts over generic value sequences, with real division.
- `Entropy`: the entropy `scipy.stats.entropy(prior(X))` and `cond_entropy`. The logarithm `np.log` is a parameter `ln`.
- `Association`: the guards and formulas of `information_gain` and `symmetrical_uncertainty`.
- `Sorting`: Python's stable `sorted(..., reverse=True)`, written as an insertion sort.
- `Selection`: what `fcbf` computes, stated on values.
  - A feature is its column position.
  - `scores[i]` is the SU of column `i` with the class.
  - `su(a, b)` is `symmetrical_uncertainty(X=f_a, y=f_b)`. It is an uninterpreted function and is not assumed symmetric.
  - `Redundant` is a reference definition of the ranks removed by the elimination pass, proved unique.
  - `Select` assembles the three results.
- `Filter`: `fcbf` as the source runs it.
  - the loop that splits columns by the threshold;
  - the nested elimination loops, with their `continue` and `break`;
  - the pops in decreasing index order.

  Each step is a method proved against `Selection`. `Filter.Fcbf` is proved equal to `Selection.Select`.
- `Monotonicity`: the relevant list at a higher threshold is a prefix of the one at a lower threshold.

## Behaviour at the edges

- `correlation_values` is `dict(S_ord + S_ord_removed)`. Its keys are the features that reach the threshold, and only those; the below-threshold features in `S_removed` are not keys (`Selection.SelectCorrelations`). The expected dict in test/test_fcbf.py:25-34 agrees: run at threshold 0.1, every key in it scores at least 0.1.
- The code does not check that two variables have the same length. The model states equal length as a precondition of the probability and entropy functions instead of an error path.
- The code divides by `H(X) + H(y)` without a guard. The model requires the sum to be non-zero (`Association.Su`).

## Model

| member | source | states |
|---|---|---|
| Frequency.Prior | fcbf/fcbf.py:13-23 | the keys are exactly the observed values; each value maps to its count divided by the number of samples |
| Frequency.PriorSumsToOne | fcbf/fcbf.py:22-23 | for a non-empty variable, the prior masses over all distinct observed values sum to 1 |
| Frequency.Count | fcbf/fcbf.py:23 | a count never exceeds the number of samples and is zero exactly when the value is absent |
| Frequency.Frac | fcbf/fcbf.py:23 | a relative frequency c/n with 0 < c <= n lies in (0, 1] and times n gives c back |
| Frequency.CondProba | fcbf/fcbf.py:25-37 | the keys are exactly the observed (x, y) pairs; each pair maps to count(x, y) / count(y), which is in (0, 1] |
| Frequency.CondProbaSumsToOne | fcbf/fcbf.py:36-37 | for every observed class value y, P(x given y) summed over all values x is 1 |
| Entropy.EntropyOf | fcbf/fcbf.py:67 | `scipy.stats.entropy(prior(X), base=base)`: minus the sum of p log p over the distinct values, divided by log(base); its sign is stated by `Entropy.EntropyNonNegative` |
| Entropy.EntropyNonNegative | fcbf/fcbf.py:67-71 | when ln is not positive on (0, 1] and ln(base) > 0, the entropy of the prior is not negative, so the guard at line 70 never fires |
| Entropy.CondEntropyOf | fcbf/fcbf.py:39-53 | the prior-weighted sum, over each class value y, of minus the sum of P(x given y) log P(x given y); its sign is stated by `Entropy.CondEntropyNonNegative` |
| Entropy.CondEntropyNonNegative | fcbf/fcbf.py:39-53 | under the same conditions, the conditional entropy is not negative |
| Association.Gain | fcbf/fcbf.py:70-75 | the negative-entropy error occurs exactly when H(X) < 0; the negative-gain error exactly when 0 <= H(X) < H(X given y); otherwise the result is a gain g >= 0 with g + H(X given y) = H(X) |
| Association.Su | fcbf/fcbf.py:89-93 | fails exactly when Gain fails, with the same error; otherwise, when H(y) >= 0, the result is >= 0 and is 0 exactly when H(X) = H(X given y) |
| Association.InformationGain | fcbf/fcbf.py:55-75 | `Association.Gain` applied to H(X) and H(X given y) computed from the data; its error cases are stated by `Association.InformationGainOnlyFailsOnGain` |
| Association.SymmetricalUncertainty | fcbf/fcbf.py:77-93 | `Association.Su` applied to H(X), H(y) and H(X given y) computed from the data; its error cases and sign are stated by `Association.SymmetricalUncertaintyNonNegative` |
| Association.InformationGainOnlyFailsOnGain | fcbf/fcbf.py:55-75 | for entropies computed from data, information_gain never raises the negative-entropy error, and it fails exactly when H(X) < H(X given y) |
| Association.SymmetricalUncertaintyNonNegative | fcbf/fcbf.py:77-93 | computed from data, symmetrical_uncertainty fails exactly when H(X) < H(X given y); otherwise it is >= 0, and 0 exactly when H(X given y) = H(X) |
| Sorting.Insert | fcbf/fcbf.py:135 | inserting keeps the multiset of elements plus the new one |
| Sorting.SortDesc | fcbf/fcbf.py:135 | the sorted list is a permutation of the input, in non-increasing key order |
| Sorting.InSortDesc | fcbf/fcbf.py:135 | an element is in the sorted list exactly when it is in the input |
| Sorting.SortDescIsStable | fcbf/fcbf.py:135 | elements of equal key keep their original relative order |
| Sorting.SortDescKeepsTagsDistinct | fcbf/fcbf.py:135 | sorting neither duplicates nor merges elements |
| Selection.ColumnsWhere | fcbf/fcbf.py:120-129 | S (above) and S_removed (below) as (column, score) entries in column order; their contents are stated by `Selection.ColumnsWhereLists`, and `Filter.SplitByThreshold` builds exactly them |
| Selection.ColumnsWhereLists | fcbf/fcbf.py:122-129 | the entries of S (or of S_removed) are exactly the columns scoring >= the threshold (or below it), each with its own score, in increasing column order |
| Selection.Ranking | fcbf/fcbf.py:135 | S_ord, the stable sort of S by decreasing score; its contents and order are stated by `Selection.RankingEntries` and `Selection.RankingOrder` |
| Selection.RankingEntries | fcbf/fcbf.py:135 | S_ord holds exactly the columns that reach the threshold, each with its own score |
| Selection.RankingOrder | fcbf/fcbf.py:135 | S_ord names no column twice, has non-increasing scores, and orders equal scores by column |
| Selection.Redundant | fcbf/fcbf.py:139-166 | the ranks the elimination pass removes, as a reference definition; characterised by `Selection.RedundantIff` and `Selection.RedundantIsUnique`, and computed by `Filter.EliminateRedundant` |
| Selection.Dominates | fcbf/fcbf.py:156-159 | the test `su_ip >= su_ic`: su(f_p, f_q), with the earlier rank first, reaches the class score of q; it is the relation `Selection.RedundantIff` and `Selection.SelectRedundancy` state redundancy by |
| Selection.RedundantIff | fcbf/fcbf.py:141-163 | a rank q is removed exactly when some earlier rank p, not itself removed, has su(f_p, f_q) >= the class score of q |
| Selection.RedundantIsUnique | fcbf/fcbf.py:141-166 | any set of ranks that satisfies the characterisation of RedundantIff is the set Redundant |
| Selection.FirstRankedNotRedundant | fcbf/fcbf.py:141-148 | rank 0 is never removed |
| Selection.Select | fcbf/fcbf.py:95-180 | the three results of `fcbf`, or the error when no column reaches the threshold; its properties are stated by `Selection.SelectFailsIff`, `Selection.SelectRanking`, `Selection.SelectPartition`, `Selection.SelectIrrelevantOrder`, `Selection.SelectCorrelations` and `Selection.SelectRedundancy` |
| Selection.SelectFailsIff | fcbf/fcbf.py:130-132 | fcbf raises exactly when every column scores below the threshold |
| Selection.Survivors | fcbf/fcbf.py:168-170 | S_ord after popping the removed ranks, in rank order; stated by `Selection.SurvivorsAndDroppedCoverRanks`, `Selection.SurvivorsNotDominated` and `Filter.PopRemoved` |
| Selection.Dropped | fcbf/fcbf.py:168-170 | the popped entries, in pop order (from the last removed rank to the first); stated by `Selection.SurvivorsAndDroppedCoverRanks`, `Selection.DroppedIsDominated` and `Filter.PopRemoved` |
| Selection.SurvivorsStartWithFirst | fcbf/fcbf.py:168-177 | S_ord after the pops is non-empty and starts with the top-ranked entry |
| Selection.SurvivorsAndDroppedCoverRanks | fcbf/fcbf.py:168-176 | the positions kept, followed by the positions popped, name every rank of S_ord exactly once |
| Selection.SurvivorsAndDroppedAreRanking | fcbf/fcbf.py:168-176 | S_ord after the pops plus S_ord_removed holds exactly the entries of the original S_ord |
| Selection.SurvivorsNotDominated | fcbf/fcbf.py:151-163 | no surviving entry is dominated by a survivor ranked above it |
| Selection.DroppedIsDominated | fcbf/fcbf.py:151-163 | every popped entry is dominated by some survivor whose class score is at least its own |
| Selection.DictOf | fcbf/fcbf.py:176 | the keys of dict(items) are the listed features, and each maps to a score listed with it |
| Selection.Ids | fcbf/fcbf.py:177-178 | the feature names of a list of (name, score) pairs, in list order; used by `Selection.SelectRanking`, `Selection.SelectPartition` and `Selection.SelectIrrelevantOrder` to state the returned lists |
| Selection.SelectRanking | fcbf/fcbf.py:134-177 | when some column reaches the threshold, fcbf succeeds; the relevant list is non-empty; all its features reach the threshold; their scores are non-increasing, with ties in column order; the first has the largest score of all columns |
| Selection.SelectPartition | fcbf/fcbf.py:120-178 | when some column reaches the threshold, fcbf succeeds, and the relevant and irrelevant lists together name every column exactly once, and every below-threshold column is irrelevant |
| Selection.SelectIrrelevantOrder | fcbf/fcbf.py:168-178 | when some column reaches the threshold, fcbf succeeds, and the irrelevant list is, first, redundant features (scores >= the threshold, non-decreasing, ties in decreasing column order), then the below-threshold columns in column order |
| Selection.SelectCorrelations | fcbf/fcbf.py:176 | when some column reaches the threshold, fcbf succeeds, and correlation_values has exactly the columns that reach the threshold as keys, each mapped to its class score |
| Selection.SelectRedundancy | fcbf/fcbf.py:138-177 | when some column reaches the threshold, fcbf succeeds; no relevant feature is dominated by a relevant feature ranked above it; every irrelevant feature that reaches the threshold is dominated by a relevant feature whose score is at least its own |
| Filter.SplitByThreshold | fcbf/fcbf.py:120-129 | the loop builds S and S_removed as the columns at or above, and below, the threshold, in column order, each with its own score |
| Filter.EliminateRedundant | fcbf/fcbf.py:139-166 | the nested loops append each rank at most once, and they append exactly the ranks in Redundant |
| Filter.SortedIndicesAreInsideDesc | fcbf/fcbf.py:169 | sorting the removed indices in reverse gives them once each, in strictly decreasing order |
| Filter.PopRemoved | fcbf/fcbf.py:168-170 | popping at decreasing indices leaves S_ord without exactly those positions, in order, and collects the popped entries in pop order |
| Filter.Fcbf | fcbf/fcbf.py:95-180 | fcbf raises exactly when no column reaches the threshold; otherwise it returns what Select specifies |
| Monotonicity.RankedUnique | fcbf/fcbf.py:135 | a ranked list without repeated columns is determined by its entries |
| Monotonicity.CutPoint | fcbf/fcbf.py:135 | in a non-increasing list, the entries scoring at least t form a prefix |
| Monotonicity.RankingAtHigherThreshold | fcbf/fcbf.py:120-135 | S_ord at a higher threshold is a prefix of S_ord at a lower one |
| Monotonicity.RedundantBelowOfPrefix | fcbf/fcbf.py:141-166 | whether a rank is redundant depends only on the ranks above it |
| Monotonicity.SurvivorsOfPrefix | fcbf/fcbf.py:141-177 | the survivors of a prefix of S_ord are a prefix of the survivors of S_ord |
| Monotonicity.SelectThresholdMonotone | fcbf/fcbf.py:95-180 | if some column reaches threshold t2, fcbf succeeds at t2 and at any t1 <= t2, and its relevant list at t2 is a prefix of the one at t1, so it is never longer |

## Left out

- Entropy values are not assumed. `scipy.stats.entropy` and `np.log` are transcendental floating-point library code. The natural logarithm is the parameter `ln`, and entropies are exact reals computed through it.
- Missing values are left out: every cell of a variable is a value. In the source, `value_counts()` (fcbf/fcbf.py:23) and `groupby(...).size()` (fcbf/fcbf.py:37) skip NaN cells, while the divisors `X.size` (fcbf/fcbf.py:22) and `len(sample.index)` (fcbf/fcbf.py:37) count them, and the bundled loader reads '?' as NaN (fcbf/data/datasets.py:8). On data with missing cells the source's prior and cond_proba sum to less than 1. The model has no NaN cell, so it does not capture that.
- Frequency.PriorSumsToOne, Frequency.CondProbaSumsToOne: hold for variables without missing cells only, for the reason above.
- scipy's renormalisation of the input vector (fcbf/fcbf.py:67, 89-90) is not repeated. It changes nothing only when no cell is missing, because then `Frequency.PriorSumsToOne` shows the prior already sums to 1.
- SU being at most 1, and SU being symmetric, are not proved. Both depend on properties of the logarithm beyond its sign.
- In `fcbf`, the class scores and the pairwise SU are inputs, `scores` and `su`, not computed from data.
  - The `RuntimeError`s that `symmetrical_uncertainty` could raise inside `fcbf` are therefore not modelled.
  - `Association` models those errors for a single call.
- Association.Su, Association.SymmetricalUncertainty, Association.SymmetricalUncertaintyNonNegative: require H(X) + H(y) != 0 whenever the gain is computed. Only then does the source reach its unguarded division by that sum (fcbf/fcbf.py:93); when `information_gain` raises first, any sum is accepted and the error is modelled. For entropies computed from data the excluded case is two constant variables, where the source divides 0 by 0.
- Frequency.CondProba, Entropy.CondEntropyOf, Association.InformationGain, Association.SymmetricalUncertainty: require equal lengths. The source performs no length check.
- Entropy.EntropyOf: requires ln(base) != 0, and so does every member built on it. This excludes base 1, which the source accepts and then divides by `np.log(1)` = 0, in scipy's `entropy` and at fcbf/fcbf.py:51, producing infinities or NaN rather than an exception.
- Selection.DictOf, Selection.Select: `correlation_values` is modelled as a `map`, so the insertion order of the keys of `dict(S_ord + S_ord_removed)` (fcbf/fcbf.py:176) is not modelled; the order of the two lists is stated on `relevant` and `irrelevant` instead.
- Floating point is left out: rounding, NaN scores and infinities. NaN compares false with every threshold in the source.
- Column names are modelled as column positions. A table with two equally named columns, which would collide in the dict `S`, is not modelled.
- The pandas mechanics (`value_counts`, `groupby`, multi-index division and sums) are modelled only by their counting meaning.
- Logging, and the `removed_features` dict, are left out. The dict and the `su_pq` lists are only logged.
- The `__main__` demo is left out, as are fcbf/data/datasets.py, which reads a CSV file, and the test suite.
