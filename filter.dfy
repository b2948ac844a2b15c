/**
 * The `fcbf` procedure of fcbf/fcbf.py step by step: the loop over the
 * columns that splits them by the threshold, the stable sort, the nested
 * loops that collect the indices of redundant features, the pops in
 * decreasing index order, and the three results. Each step is proved to
 * compute what `Selection` specifies.
 */
module Filter {
  import opened Outcomes
  import opened Frequency
  import opened Sorting
  import opened Selection

  /** The loop over `X.columns`: entries at or above the threshold go to `S`, the others to `S_removed`. */
  method SplitByThreshold(scores: seq<real>, threshold: real) returns (s: seq<Entry>, sRemoved: seq<Entry>)
    ensures s == ColumnsWhere(scores, threshold, true, |scores|)
    ensures sRemoved == ColumnsWhere(scores, threshold, false, |scores|)
    ensures ListsColumns(scores, threshold, true, |scores|, s)
    ensures ListsColumns(scores, threshold, false, |scores|, sRemoved)
  {
    s, sRemoved := [], [];
    for i := 0 to |scores|
      invariant s == ColumnsWhere(scores, threshold, true, i)
      invariant sRemoved == ColumnsWhere(scores, threshold, false, i)
    {
      if scores[i] >= threshold {
        s := s + [Entry(i, scores[i])];
      } else {
        sRemoved := sRemoved + [Entry(i, scores[i])];
      }
    }
    ColumnsWhereLists(scores, threshold, true, |scores|);
    ColumnsWhereLists(scores, threshold, false, |scores|);
  }

  /**
   * Some rank below `b` that is not listed in `removed` dominates rank `q`.
   */
  predicate DominatedBelow(ord: seq<Entry>, su: (nat, nat) -> real, removed: seq<nat>, q: nat, b: nat)
    requires q < |ord| && b <= |ord|
  {
    exists p :: 0 <= p < b && p !in removed && Dominates(ord, su, p, q)
  }

  /** Raising the bound by one adds exactly the candidate at the old bound. */
  lemma DominatedBelowStep(ord: seq<Entry>, su: (nat, nat) -> real, removed: seq<nat>, b: nat)
    requires b < |ord|
    ensures forall q :: 0 <= q < |ord| ==>
      (DominatedBelow(ord, su, removed, q, b + 1) <==>
        DominatedBelow(ord, su, removed, q, b) || (b !in removed && Dominates(ord, su, b, q)))
  {
    forall q | 0 <= q < |ord|
      ensures DominatedBelow(ord, su, removed, q, b + 1) <==>
        DominatedBelow(ord, su, removed, q, b) || (b !in removed && Dominates(ord, su, b, q))
    {
      if DominatedBelow(ord, su, removed, q, b + 1) {
        var p :| 0 <= p < b + 1 && p !in removed && Dominates(ord, su, p, q);
        if p < b {
          assert DominatedBelow(ord, su, removed, q, b);
        }
      }
    }
  }

  /** Listing a rank at or above the bound does not change which ranks are dominated below it. */
  lemma DominatedBelowAppend(ord: seq<Entry>, su: (nat, nat) -> real, removed: seq<nat>, x: nat)
    ensures forall q: nat, b: nat :: q < |ord| && b <= |ord| && b <= x ==>
      (DominatedBelow(ord, su, removed + [x], q, b) <==> DominatedBelow(ord, su, removed, q, b))
  {
    forall q: nat, b: nat | q < |ord| && b <= |ord| && b <= x
      ensures DominatedBelow(ord, su, removed + [x], q, b) <==> DominatedBelow(ord, su, removed, q, b)
    {
      if DominatedBelow(ord, su, removed, q, b) {
        var p :| 0 <= p < b && p !in removed && Dominates(ord, su, p, q);
        assert p !in removed + [x];
      }
      if DominatedBelow(ord, su, removed + [x], q, b) {
        var p :| 0 <= p < b && p !in removed + [x] && Dominates(ord, su, p, q);
        assert p !in removed;
      }
    }
  }

  /**
   * The nested loops over `S_ord`: for each rank `p` not yet removed, every
   * later rank not yet removed that `p` dominates is appended to
   * `removed_features_indices`; the outer loop stops at the last rank. The
   * list holds, once each, exactly the `Redundant` ranks.
   */
  method EliminateRedundant(ord: seq<Entry>, su: (nat, nat) -> real) returns (removed: seq<nat>)
    ensures NoDup(removed)
    ensures forall q :: q in removed <==> q in Redundant(ord, su)
  {
    var n := |ord|;
    removed := [];
    for p := 0 to n
      invariant NoDup(removed)
      invariant forall x :: x in removed ==> x < n
      invariant forall q :: 0 <= q < p ==> (q in removed <==> DominatedBelow(ord, su, removed, q, q))
      invariant forall q :: p <= q < n ==> (q in removed <==> DominatedBelow(ord, su, removed, q, p))
    {
      if p in removed {
        DominatedBelowStep(ord, su, removed, p);
        continue;
      }
      if p + 1 < n {
        for i := p + 1 to n
          invariant NoDup(removed)
          invariant forall x :: x in removed ==> x < n
          invariant p !in removed
          invariant forall q :: 0 <= q <= p ==> (q in removed <==> DominatedBelow(ord, su, removed, q, q))
          invariant forall q :: p < q < i ==> (q in removed <==> DominatedBelow(ord, su, removed, q, p + 1))
          invariant forall q :: i <= q < n ==> (q in removed <==> DominatedBelow(ord, su, removed, q, p))
        {
          DominatedBelowStep(ord, su, removed, p);
          if i in removed {
            continue;
          }
          if su(ord[p].id, ord[i].id) >= ord[i].score {
            DominatedBelowAppend(ord, su, removed, i);
            assert p !in removed + [i];
            assert DominatedBelow(ord, su, removed + [i], i, p + 1);
            removed := removed + [i];
          }
        }
      } else {
        break;
      }
    }
    ghost var x := set v | v in removed;
    forall q | 0 <= q < n
      ensures q in x <==> exists p :: 0 <= p < q && p !in x && Dominates(ord, su, p, q)
    {
      assert q in x <==> DominatedBelow(ord, su, removed, q, q);
      if DominatedBelow(ord, su, removed, q, q) {
        var p :| 0 <= p < q && p !in removed && Dominates(ord, su, p, q);
        assert p !in x;
      }
      if exists p :: 0 <= p < q && p !in x && Dominates(ord, su, p, q) {
        var p :| 0 <= p < q && p !in x && Dominates(ord, su, p, q);
        assert p !in removed;
      }
    }
    RedundantIsUnique(ord, su, x);
  }

  function Positions(desc: seq<nat>): set<nat> {
    set v | v in desc
  }

  /**
   * The loop that pops `S_ord` at each removed index, largest index first,
   * appending each popped entry to `S_ord_removed`.
   */
  method PopRemoved(sOrd: seq<Entry>, desc: seq<nat>) returns (kept: seq<Entry>, popped: seq<Entry>)
    requires forall t :: 0 <= t < |desc| ==> desc[t] < |sOrd|
    requires forall t, u :: 0 <= t < u < |desc| ==> desc[t] > desc[u]
    ensures kept == Without(sOrd, Positions(desc))
    ensures popped == Pick(sOrd, desc)
  {
    WithoutNothing(sOrd);
    kept, popped := sOrd, [];
    ghost var gone: set<nat> := {};
    for j := 0 to |desc|
      invariant forall v :: v in gone <==> v in desc[..j]
      invariant kept == Without(sOrd, gone)
      invariant popped == Pick(sOrd, desc[..j])
    {
      var i := desc[j];
      forall v | v in gone ensures v > i {
        var t :| 0 <= t < j && desc[t] == v;
      }
      PopFromWithout(sOrd, gone, i);
      assert desc[..j + 1] == desc[..j] + [i];
      popped := popped + [kept[i]];
      kept := kept[..i] + kept[i + 1..];
      gone := gone + {i};
    }
    assert desc[..|desc|] == desc;
    assert gone == Positions(desc);
  }

  function IndexKey(k: nat): real { k as real }

  function IndexTag(k: nat): int { k }

  /**
   * `sorted(removed_features_indices, reverse=True)`: for a list without
   * repeats that holds exactly the ranks of `x` below `n`, the sorted list is
   * `InsideDesc(x, n)`.
   */
  lemma SortedIndicesAreInsideDesc(l: seq<nat>, x: set<nat>, n: nat)
    requires NoDup(l)
    requires forall v :: v in l <==> v in x && v < n
    ensures SortDesc(l, IndexKey) == InsideDesc(x, n)
  {
    var a := SortDesc(l, IndexKey);
    assert DistinctTags(l, IndexTag);
    SortDescKeepsTagsDistinct(l, IndexKey, IndexTag);
    forall t, u | 0 <= t < u < |a| ensures a[t] > a[u] {
      assert IndexKey(a[t]) >= IndexKey(a[u]);
      assert IndexTag(a[t]) != IndexTag(a[u]);
    }
    forall v ensures v in a <==> v in InsideDesc(x, n) {
      InSortDesc(l, IndexKey, v);
      InsideDescFacts(x, n);
    }
    InsideDescFacts(x, n);
    DecreasingUnique(a, InsideDesc(x, n));
  }

  /**
   * `fcbf(X, y, su_threshold)` on the class scores of the columns and the
   * pairwise symmetrical uncertainty: it raises exactly when no column
   * reaches the threshold, and otherwise returns what `Select` specifies.
   */
  method Fcbf(scores: seq<real>, threshold: real, su: (nat, nat) -> real) returns (r: Result<Selected, SelectionError>)
    ensures r == Select(scores, threshold, su)
    ensures r.Err? <==> forall i :: 0 <= i < |scores| ==> scores[i] < threshold
  {
    SelectFailsIff(scores, threshold, su);
    var s, sRemoved := SplitByThreshold(scores, threshold);
    if s == [] {
      return Err(NoFeatureAboveThreshold);
    }
    var sOrd := SortDesc(s, Score);
    assert sOrd == Ranking(scores, threshold);
    var removedIndices := EliminateRedundant(sOrd, su);
    var red := Redundant(sOrd, su);
    var desc := SortDesc(removedIndices, IndexKey);
    SortedIndicesAreInsideDesc(removedIndices, red, |sOrd|);
    InsideDescFacts(red, |sOrd|);
    var kept, popped := PopRemoved(sOrd, desc);
    OutsideFrame(Positions(desc), red, 0, |sOrd|);
    assert kept == Survivors(sOrd, su);
    assert popped == Dropped(sOrd, su);
    IdsAppend(popped, sRemoved);
    r := Ok(Selected(Ids(kept), Ids(popped + sRemoved), DictOf(kept + popped)));
  }
}
