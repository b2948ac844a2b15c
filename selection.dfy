/**
 * The selection that `fcbf` in fcbf/fcbf.py performs, stated on values:
 * which columns pass the relevance threshold, how they are ranked, which
 * ranked features are redundant, and the three results built from them.
 * A feature is its column position; its symmetrical uncertainty with the
 * class is `scores[id]`, and `su(a, b)` is the symmetrical uncertainty of
 * feature `a` (as X) with feature `b` (as y).
 */
module Selection {
  import opened Outcomes
  import opened Frequency
  import opened Sorting

  /** An item of `S`, `S_removed` or `S_ord`: a feature and its score against the class. */
  datatype Entry = Entry(id: nat, score: real)

  /** The `ValueError` raised when no feature reaches the threshold. */
  datatype SelectionError = NoFeatureAboveThreshold

  /** The three results of `fcbf`: relevant features by decreasing relevance, irrelevant features, and scores by feature. */
  datatype Selected = Selected(relevant: seq<nat>, irrelevant: seq<nat>, correlations: map<nat, real>)

  function Score(e: Entry): real { e.score }

  function Tag(e: Entry): int { e.id }

  function Ids(s: seq<Entry>): seq<nat> {
    seq(|s|, i requires 0 <= i < |s| => s[i].id)
  }

  /** In non-increasing score order, equal scores in increasing column order. */
  predicate Ranked(s: seq<Entry>) {
    NonIncreasing(s, Score) && TiesInTagOrder(s, Score, Tag)
  }

  // ---------------------------------------------------------------------
  // Relevance: the split of the columns by the threshold
  // ---------------------------------------------------------------------

  /**
   * The entries the first `n` columns contribute to `S` (`above`) or to
   * `S_removed` (not `above`), in column order.
   */
  function ColumnsWhere(scores: seq<real>, threshold: real, above: bool, n: nat): seq<Entry>
    requires n <= |scores|
  {
    if n == 0 then []
    else
      ColumnsWhere(scores, threshold, above, n - 1)
      + (if (scores[n - 1] >= threshold) == above then [Entry(n - 1, scores[n - 1])] else [])
  }

  /** Each entry of `s` is a column below `n`, with its own score, on the `above` side of the threshold. */
  predicate EntriesOnSide(scores: seq<real>, threshold: real, above: bool, n: nat, s: seq<Entry>)
    requires n <= |scores|
  {
    forall k :: 0 <= k < |s| ==> s[k].id < n && s[k].score == scores[s[k].id] && (s[k].score >= threshold) == above
  }

  /** The columns of `s` strictly increase. */
  predicate IdsIncreasing(s: seq<Entry>) {
    forall k, j :: 0 <= k < j < |s| ==> s[k].id < s[j].id
  }

  /** Every column below `n` on the `above` side of the threshold is in `s`, with its own score. */
  predicate CoversColumns(scores: seq<real>, threshold: real, above: bool, n: nat, s: seq<Entry>)
    requires n <= |scores|
  {
    forall i :: 0 <= i < n && (scores[i] >= threshold) == above ==> Entry(i, scores[i]) in s
  }

  /**
   * `s` lists, in increasing column order and each with its own score, all
   * the columns below `n` whose score is on the `above` side of the
   * threshold, and no others.
   */
  predicate ListsColumns(scores: seq<real>, threshold: real, above: bool, n: nat, s: seq<Entry>)
    requires n <= |scores|
  {
    EntriesOnSide(scores, threshold, above, n, s) && IdsIncreasing(s) && CoversColumns(scores, threshold, above, n, s)
  }

  lemma {:induction false} ColumnsWhereOnSide(scores: seq<real>, threshold: real, above: bool, n: nat)
    requires n <= |scores|
    ensures EntriesOnSide(scores, threshold, above, n, ColumnsWhere(scores, threshold, above, n))
  {
    if n > 0 {
      ColumnsWhereOnSide(scores, threshold, above, n - 1);
      var prev := ColumnsWhere(scores, threshold, above, n - 1);
      var s := ColumnsWhere(scores, threshold, above, n);
      forall k | 0 <= k < |s|
        ensures s[k].id < n && s[k].score == scores[s[k].id] && (s[k].score >= threshold) == above
      {
        if k < |prev| {
          assert s[k] == prev[k];
        }
      }
    }
  }

  lemma {:induction false} ColumnsWhereIncreasing(scores: seq<real>, threshold: real, above: bool, n: nat)
    requires n <= |scores|
    ensures IdsIncreasing(ColumnsWhere(scores, threshold, above, n))
  {
    if n > 0 {
      ColumnsWhereIncreasing(scores, threshold, above, n - 1);
      ColumnsWhereOnSide(scores, threshold, above, n - 1);
      var prev := ColumnsWhere(scores, threshold, above, n - 1);
      var s := ColumnsWhere(scores, threshold, above, n);
      forall k, j | 0 <= k < j < |s| ensures s[k].id < s[j].id {
        assert s[k] == prev[k];
        if j < |prev| {
          assert s[j] == prev[j];
        }
      }
    }
  }

  lemma {:induction false} ColumnsWhereCovers(scores: seq<real>, threshold: real, above: bool, n: nat)
    requires n <= |scores|
    ensures CoversColumns(scores, threshold, above, n, ColumnsWhere(scores, threshold, above, n))
  {
    if n > 0 {
      ColumnsWhereCovers(scores, threshold, above, n - 1);
      var prev := ColumnsWhere(scores, threshold, above, n - 1);
      var s := ColumnsWhere(scores, threshold, above, n);
      forall i | 0 <= i < n && (scores[i] >= threshold) == above
        ensures Entry(i, scores[i]) in s
      {
        if i < n - 1 {
          var k :| 0 <= k < |prev| && prev[k] == Entry(i, scores[i]);
          assert s[k] == prev[k];
        } else {
          assert s[|s| - 1] == Entry(n - 1, scores[n - 1]);
        }
      }
    }
  }

  lemma ColumnsWhereLists(scores: seq<real>, threshold: real, above: bool, n: nat)
    requires n <= |scores|
    ensures ListsColumns(scores, threshold, above, n, ColumnsWhere(scores, threshold, above, n))
  {
    ColumnsWhereOnSide(scores, threshold, above, n);
    ColumnsWhereIncreasing(scores, threshold, above, n);
    ColumnsWhereCovers(scores, threshold, above, n);
  }

  /** `S_ord`: the relevant entries sorted by decreasing score, stably. */
  function Ranking(scores: seq<real>, threshold: real): seq<Entry> {
    SortDesc(ColumnsWhere(scores, threshold, true, |scores|), Score)
  }

  /**
   * Every entry of the ranking is a column at or above the threshold with
   * its own score, and every such column is in it.
   */
  lemma RankingEntries(scores: seq<real>, threshold: real)
    ensures forall k :: 0 <= k < |Ranking(scores, threshold)| ==>
      var e := Ranking(scores, threshold)[k];
      e.id < |scores| && e.score == scores[e.id] && e.score >= threshold
    ensures forall i :: 0 <= i < |scores| && scores[i] >= threshold ==> Entry(i, scores[i]) in Ranking(scores, threshold)
  {
    var kept := ColumnsWhere(scores, threshold, true, |scores|);
    var ord := Ranking(scores, threshold);
    ColumnsWhereLists(scores, threshold, true, |scores|);
    forall k | 0 <= k < |ord|
      ensures ord[k].id < |scores| && ord[k].score == scores[ord[k].id] && ord[k].score >= threshold
    {
      InSortDesc(kept, Score, ord[k]);
    }
    forall i | 0 <= i < |scores| && scores[i] >= threshold
      ensures Entry(i, scores[i]) in ord
    {
      InSortDesc(kept, Score, Entry(i, scores[i]));
    }
  }

  /** The ranking names no column twice and is `Ranked`. */
  lemma RankingOrder(scores: seq<real>, threshold: real)
    ensures DistinctTags(Ranking(scores, threshold), Tag)
    ensures Ranked(Ranking(scores, threshold))
  {
    var kept := ColumnsWhere(scores, threshold, true, |scores|);
    ColumnsWhereLists(scores, threshold, true, |scores|);
    assert forall i, j :: 0 <= i < j < |kept| ==> Tag(kept[i]) < Tag(kept[j]);
    SortDescKeepsTagsDistinct(kept, Score, Tag);
    SortDescIsStable(kept, Score, Tag);
  }

  // ---------------------------------------------------------------------
  // Redundancy
  // ---------------------------------------------------------------------

  /** The feature ranked at `p` makes the one ranked at `q` redundant: su(f_p, f_q) >= su(f_q, class). */
  predicate Dominates(ord: seq<Entry>, su: (nat, nat) -> real, p: nat, q: nat)
    requires p < |ord| && q < |ord|
  {
    su(ord[p].id, ord[q].id) >= ord[q].score
  }

  /**
   * The redundant ranks below `n`, decided in rank order: rank `n - 1` is
   * redundant when some earlier rank that is not redundant dominates it.
   */
  function RedundantBelow(ord: seq<Entry>, su: (nat, nat) -> real, n: nat): (r: set<nat>)
    requires n <= |ord|
    ensures forall q :: q in r ==> q < n
  {
    if n == 0 then {}
    else
      var r := RedundantBelow(ord, su, n - 1);
      if exists p :: 0 <= p < n - 1 && p !in r && Dominates(ord, su, p, n - 1) then r + {n - 1} else r
  }

  /** The ranks of `S_ord` that `fcbf` removes as redundant. */
  function Redundant(ord: seq<Entry>, su: (nat, nat) -> real): set<nat> {
    RedundantBelow(ord, su, |ord|)
  }

  lemma {:induction false} RedundantBelowPrefix(ord: seq<Entry>, su: (nat, nat) -> real, m: nat, n: nat)
    requires m <= n <= |ord|
    ensures forall q: nat :: q < m ==> (q in RedundantBelow(ord, su, n) <==> q in RedundantBelow(ord, su, m))
  {
    if m < n {
      RedundantBelowPrefix(ord, su, m, n - 1);
    }
  }

  /**
   * A ranked feature is redundant exactly when an earlier-ranked feature
   * that is not itself redundant dominates it.
   */
  lemma RedundantIff(ord: seq<Entry>, su: (nat, nat) -> real, q: nat)
    requires q < |ord|
    ensures q in Redundant(ord, su) <==> exists p :: 0 <= p < q && p !in Redundant(ord, su) && Dominates(ord, su, p, q)
  {
    var red := Redundant(ord, su);
    var below := RedundantBelow(ord, su, q);
    RedundantBelowPrefix(ord, su, q + 1, |ord|);
    RedundantBelowPrefix(ord, su, q, |ord|);
    assert q in red <==> q in RedundantBelow(ord, su, q + 1);
    if q in red {
      var p :| 0 <= p < q && p !in below && Dominates(ord, su, p, q);
      assert p !in red;
    }
  }

  /** The feature ranked first is never redundant. */
  lemma FirstRankedNotRedundant(ord: seq<Entry>, su: (nat, nat) -> real)
    requires |ord| > 0
    ensures 0 !in Redundant(ord, su)
  {
    RedundantIff(ord, su, 0);
  }

  lemma {:induction false} AgreesBelow(ord: seq<Entry>, su: (nat, nat) -> real, x: set<nat>, m: nat)
    requires m <= |ord|
    requires forall q :: 0 <= q < |ord| ==> (q in x <==> exists p :: 0 <= p < q && p !in x && Dominates(ord, su, p, q))
    ensures forall q :: 0 <= q < m ==> (q in x <==> q in RedundantBelow(ord, su, m))
  {
    if m > 0 {
      AgreesBelow(ord, su, x, m - 1);
      var prev := RedundantBelow(ord, su, m - 1);
      var q := m - 1;
      if q in x {
        var p :| 0 <= p < q && p !in x && Dominates(ord, su, p, q);
        assert p !in prev;
      }
    }
  }

  /**
   * `Redundant` is the only set of ranks in which a rank is present exactly
   * when an earlier rank outside the set dominates it.
   */
  lemma RedundantIsUnique(ord: seq<Entry>, su: (nat, nat) -> real, x: set<nat>)
    requires forall q :: q in x ==> q < |ord|
    requires forall q :: 0 <= q < |ord| ==> (q in x <==> exists p :: 0 <= p < q && p !in x && Dominates(ord, su, p, q))
    ensures x == Redundant(ord, su)
  {
    AgreesBelow(ord, su, x, |ord|);
  }

  // ---------------------------------------------------------------------
  // Positions and the lists built from them
  // ---------------------------------------------------------------------

  /** The positions in [lo, hi) outside `x`, in increasing order. */
  function Outside(x: set<nat>, lo: nat, hi: nat): seq<nat>
    requires lo <= hi
    decreases hi
  {
    if lo == hi then []
    else Outside(x, lo, hi - 1) + (if hi - 1 in x then [] else [hi - 1])
  }

  /** `Outside` lists each position of [lo, hi) that is not in `x`, once, in increasing order, and nothing else. */
  lemma {:induction false} OutsideFacts(x: set<nat>, lo: nat, hi: nat)
    requires lo <= hi
    ensures forall t :: 0 <= t < |Outside(x, lo, hi)| ==> lo <= Outside(x, lo, hi)[t] < hi && Outside(x, lo, hi)[t] !in x
    ensures forall t, u :: 0 <= t < u < |Outside(x, lo, hi)| ==> Outside(x, lo, hi)[t] < Outside(x, lo, hi)[u]
    ensures forall k :: lo <= k < hi && k !in x ==> k in Outside(x, lo, hi)
    decreases hi
  {
    if lo < hi {
      OutsideFacts(x, lo, hi - 1);
      var prev := Outside(x, lo, hi - 1);
      var d := Outside(x, lo, hi);
      forall k | lo <= k < hi && k !in x ensures k in d {
        if k < hi - 1 {
          var t :| 0 <= t < |prev| && prev[t] == k;
          assert d[t] == k;
        } else {
          assert d[|d| - 1] == k;
        }
      }
    }
  }

  /** The positions below `n` inside `x`, in decreasing order. */
  function InsideDesc(x: set<nat>, n: nat): seq<nat> {
    if n == 0 then []
    else (if n - 1 in x then [n - 1] else []) + InsideDesc(x, n - 1)
  }

  /** `InsideDesc` lists only positions below `n` that are in `x`. */
  lemma {:induction false} InsideDescBounded(x: set<nat>, n: nat)
    ensures forall t :: 0 <= t < |InsideDesc(x, n)| ==> InsideDesc(x, n)[t] < n && InsideDesc(x, n)[t] in x
  {
    if n > 0 {
      InsideDescBounded(x, n - 1);
      var rest := InsideDesc(x, n - 1);
      var d := InsideDesc(x, n);
      var head: seq<nat> := if n - 1 in x then [n - 1] else [];
      assert d == head + rest;
      forall t | 0 <= t < |d| ensures d[t] < n && d[t] in x {
        if t >= |head| {
          assert d[t] == rest[t - |head|];
        } else {
          assert n - 1 in x && head == [n - 1];
          assert d[t] == n - 1;
        }
      }
    }
  }

  /** `InsideDesc` is strictly decreasing. */
  lemma {:induction false} InsideDescDecreasing(x: set<nat>, n: nat)
    ensures forall t, u :: 0 <= t < u < |InsideDesc(x, n)| ==> InsideDesc(x, n)[t] > InsideDesc(x, n)[u]
  {
    if n > 0 {
      InsideDescDecreasing(x, n - 1);
      InsideDescBounded(x, n - 1);
      var rest := InsideDesc(x, n - 1);
      var d := InsideDesc(x, n);
      var head: seq<nat> := if n - 1 in x then [n - 1] else [];
      assert d == head + rest;
      forall t, u | 0 <= t < u < |d| ensures d[t] > d[u] {
        assert d[u] == rest[u - |head|];
        if t >= |head| {
          assert d[t] == rest[t - |head|];
        } else {
          assert d[t] == n - 1;
        }
      }
    }
  }

  /** `InsideDesc` lists every position below `n` that is in `x`. */
  lemma {:induction false} InsideDescCovers(x: set<nat>, n: nat)
    ensures forall k :: k < n && k in x ==> k in InsideDesc(x, n)
  {
    if n > 0 {
      InsideDescCovers(x, n - 1);
      var rest := InsideDesc(x, n - 1);
      var d := InsideDesc(x, n);
      var head: seq<nat> := if n - 1 in x then [n - 1] else [];
      assert d == head + rest;
      forall k | k < n && k in x ensures k in d {
        if k < n - 1 {
          var t :| 0 <= t < |rest| && rest[t] == k;
          assert d[t + |head|] == k;
        } else {
          assert d[0] == k;
        }
      }
    }
  }

  /** `InsideDesc` lists each position below `n` that is in `x`, once, in decreasing order, and nothing else. */
  lemma InsideDescFacts(x: set<nat>, n: nat)
    ensures forall t :: 0 <= t < |InsideDesc(x, n)| ==> InsideDesc(x, n)[t] < n && InsideDesc(x, n)[t] in x
    ensures forall t, u :: 0 <= t < u < |InsideDesc(x, n)| ==> InsideDesc(x, n)[t] > InsideDesc(x, n)[u]
    ensures forall k :: k < n && k in x ==> k in InsideDesc(x, n)
  {
    InsideDescBounded(x, n);
    InsideDescDecreasing(x, n);
    InsideDescCovers(x, n);
  }

  /** The elements of `s` at the positions `d`, in that order. */
  function Pick(s: seq<Entry>, d: seq<nat>): seq<Entry>
    requires forall t :: 0 <= t < |d| ==> d[t] < |s|
  {
    seq(|d|, t requires 0 <= t < |d| => s[d[t]])
  }

  /**
   * `dict(items)` for a list of (feature, score) pairs: its keys are the
   * features listed and each key is mapped to a score listed with it.
   */
  function DictOf(items: seq<Entry>): (m: map<nat, real>)
    ensures m.Keys == set e | e in items :: e.id
    ensures forall k :: k in m ==> Entry(k, m[k]) in items
  {
    if items == [] then map[]
    else
      var last := items[|items| - 1];
      var init := items[..|items| - 1];
      assert items == init + [last];
      DictOf(init)[last.id := last.score]
  }

  lemma {:induction false} OutsideSplit(x: set<nat>, lo: nat, mid: nat, hi: nat)
    requires lo <= mid <= hi
    ensures Outside(x, lo, hi) == Outside(x, lo, mid) + Outside(x, mid, hi)
    decreases hi
  {
    if mid < hi {
      OutsideSplit(x, lo, mid, hi - 1);
      var tail := if hi - 1 in x then [] else [hi - 1];
      calc {
        Outside(x, lo, hi);
        Outside(x, lo, hi - 1) + tail;
        (Outside(x, lo, mid) + Outside(x, mid, hi - 1)) + tail;
        Outside(x, lo, mid) + (Outside(x, mid, hi - 1) + tail);
        Outside(x, lo, mid) + Outside(x, mid, hi);
      }
    }
  }

  lemma {:induction false} OutsideFrame(x: set<nat>, y: set<nat>, lo: nat, hi: nat)
    requires lo <= hi
    requires forall k :: lo <= k < hi ==> (k in x <==> k in y)
    ensures Outside(x, lo, hi) == Outside(y, lo, hi)
    decreases hi
  {
    if lo < hi {
      OutsideFrame(x, y, lo, hi - 1);
    }
  }

  lemma {:induction false} OutsideOfNone(x: set<nat>, lo: nat, hi: nat)
    requires lo <= hi
    requires forall k :: lo <= k < hi ==> k !in x
    ensures |Outside(x, lo, hi)| == hi - lo
    decreases hi
  {
    if lo < hi {
      OutsideOfNone(x, lo, hi - 1);
    }
  }

  /**
   * Position `i` of the list of positions outside `x` is `i` itself when no
   * smaller position is in `x`, and adding `i` to `x` drops exactly that
   * element from the list.
   */
  lemma DropFromOutside(x: set<nat>, n: nat, i: nat, d: seq<nat>)
    requires i < n
    requires i !in x
    requires forall k :: k in x ==> k > i
    requires d == Outside(x, 0, n)
    ensures i < |d| && d[i] == i
    ensures Outside(x + {i}, 0, n) == d[..i] + d[i + 1..]
  {
    var y := x + {i};
    var a := Outside(x, 0, i);
    var b := Outside(x, i + 1, n);
    OutsideOfNone(x, 0, i);
    OutsideAround(x, n, i);
    assert d[..i] == a;
    assert d[i + 1..] == b;
    OutsideAround(y, n, i);
    OutsideFrame(x, y, 0, i);
    OutsideFrame(x, y, i + 1, n);
  }

  /** The positions outside `x` below `n`, split around position `i`. */
  lemma OutsideAround(x: set<nat>, n: nat, i: nat)
    requires i < n
    ensures Outside(x, 0, n) == Outside(x, 0, i) + (if i in x then [] else [i]) + Outside(x, i + 1, n)
  {
    OutsideSplit(x, 0, i, n);
    OutsideSplit(x, i, i + 1, n);
    assert Outside(x, i, i + 1) == Outside(x, i, i) + (if i in x then [] else [i]);
  }

  /** The entries of `s` at the positions outside `x`, in order. */
  function Without(s: seq<Entry>, x: set<nat>): seq<Entry> {
    OutsideFacts(x, 0, |s|);
    Pick(s, Outside(x, 0, |s|))
  }

  lemma {:induction false} OutsideOfEmpty(lo: nat, hi: nat)
    requires lo <= hi
    ensures |Outside({}, lo, hi)| == hi - lo
    ensures forall t :: 0 <= t < hi - lo ==> Outside({}, lo, hi)[t] == lo + t
    decreases hi
  {
    if lo < hi {
      OutsideOfEmpty(lo, hi - 1);
    }
  }

  /** Without any position removed, `Without` is the identity. */
  lemma WithoutNothing(s: seq<Entry>)
    ensures Without(s, {}) == s
  {
    OutsideOfEmpty(0, |s|);
  }

  /**
   * `s.pop(i)` on `Without(s, x)`, when no position of `x` is below `i`:
   * it returns `s[i]` and leaves `Without(s, x + {i})`.
   */
  lemma PopFromWithout(s: seq<Entry>, x: set<nat>, i: nat)
    requires i < |s|
    requires i !in x
    requires forall k :: k in x ==> k > i
    ensures var w := Without(s, x);
      i < |w| && w[i] == s[i] && Without(s, x + {i}) == w[..i] + w[i + 1..]
  {
    var d := Outside(x, 0, |s|);
    OutsideFacts(x, 0, |s|);
    DropFromOutside(x, |s|, i, d);
    PickDrop(s, d, i);
  }

  lemma PickDrop(s: seq<Entry>, d: seq<nat>, i: nat)
    requires forall t :: 0 <= t < |d| ==> d[t] < |s|
    requires i < |d|
    ensures Pick(s, d[..i] + d[i + 1..]) == Pick(s, d)[..i] + Pick(s, d)[i + 1..]
  {
    var e := d[..i] + d[i + 1..];
    var lhs := Pick(s, e);
    var rhs := Pick(s, d)[..i] + Pick(s, d)[i + 1..];
    assert |lhs| == |rhs|;
    forall t | 0 <= t < |lhs| ensures lhs[t] == rhs[t] {
      if t < i {
        assert e[t] == d[t];
      } else {
        assert e[t] == d[t + 1];
      }
    }
  }

  lemma PickAppend(s: seq<Entry>, d: seq<nat>, e: seq<nat>)
    requires forall t :: 0 <= t < |d| ==> d[t] < |s|
    requires forall t :: 0 <= t < |e| ==> e[t] < |s|
    ensures Pick(s, d + e) == Pick(s, d) + Pick(s, e)
  {
    var lhs := Pick(s, d + e);
    var rhs := Pick(s, d) + Pick(s, e);
    forall t | 0 <= t < |lhs| ensures lhs[t] == rhs[t] {
      if t < |d| {
        assert (d + e)[t] == d[t];
      } else {
        assert (d + e)[t] == e[t - |d|];
      }
    }
  }

  lemma NoDupAppend<T>(a: seq<T>, b: seq<T>)
    requires NoDup(a) && NoDup(b)
    requires forall v :: v in a ==> v !in b
    ensures NoDup(a + b)
  {
    var c := a + b;
    forall i, j | 0 <= i < j < |c| ensures c[i] != c[j] {
      if j < |a| {
        assert c[i] == a[i] && c[j] == a[j];
      } else if i >= |a| {
        assert c[i] == b[i - |a|] && c[j] == b[j - |a|];
      } else {
        assert c[i] == a[i] && c[j] == b[j - |a|];
        assert a[i] in a;
      }
    }
  }

  /** Distinct positions of a list without repeated features pick distinct features. */
  lemma PickKeepsIdsDistinct(s: seq<Entry>, d: seq<nat>)
    requires forall t :: 0 <= t < |d| ==> d[t] < |s|
    requires NoDup(d)
    requires DistinctTags(s, Tag)
    ensures NoDup(Ids(Pick(s, d)))
  {
    var ids := Ids(Pick(s, d));
    forall t, u | 0 <= t < u < |ids| ensures ids[t] != ids[u] {
      if d[t] < d[u] {
        assert Tag(s[d[t]]) != Tag(s[d[u]]);
      } else {
        assert Tag(s[d[u]]) != Tag(s[d[t]]);
      }
    }
  }

  /** Two strictly decreasing lists with the same elements are the same list. */
  lemma {:induction false} DecreasingUnique(a: seq<nat>, b: seq<nat>)
    requires forall t, u :: 0 <= t < u < |a| ==> a[t] > a[u]
    requires forall t, u :: 0 <= t < u < |b| ==> b[t] > b[u]
    requires forall v :: v in a <==> v in b
    ensures a == b
  {
    if a != [] || b != [] {
      assert a != [] ==> a[0] in b;
      assert b != [] ==> b[0] in a;
      assert a[0] == b[0];
      var a', b' := a[1..], b[1..];
      forall v ensures v in a' <==> v in b' {
        if v in a' {
          var t :| 0 <= t < |a'| && a'[t] == v;
          assert a[t + 1] == v;
          assert v in b && v != b[0];
        }
        if v in b' {
          var t :| 0 <= t < |b'| && b'[t] == v;
          assert b[t + 1] == v;
          assert v in a && v != a[0];
        }
      }
      DecreasingUnique(a', b');
      assert a == [a[0]] + a' && b == [b[0]] + b';
    }
  }

  // ---------------------------------------------------------------------
  // The selection
  // ---------------------------------------------------------------------

  /** The ranked entries that are not redundant, in rank order: `S_ord` after the pops. */
  function Survivors(ord: seq<Entry>, su: (nat, nat) -> real): seq<Entry> {
    Without(ord, Redundant(ord, su))
  }

  /** The redundant entries from the last rank to the first: `S_ord_removed`. */
  function Dropped(ord: seq<Entry>, su: (nat, nat) -> real): seq<Entry> {
    var red := Redundant(ord, su);
    InsideDescFacts(red, |ord|);
    Pick(ord, InsideDesc(red, |ord|))
  }

  /**
   * What `fcbf` computes from the class scores of the columns, the
   * threshold and the pairwise symmetrical uncertainty: an error when no
   * column reaches the threshold; otherwise the ranked features that are
   * not redundant, the redundant ones from the last rank to the first
   * followed by the columns below the threshold, and the scores of the
   * ranked features.
   */
  function Select(scores: seq<real>, threshold: real, su: (nat, nat) -> real): Result<Selected, SelectionError> {
    if ColumnsWhere(scores, threshold, true, |scores|) == [] then Err(NoFeatureAboveThreshold)
    else
      var ord := Ranking(scores, threshold);
      var relevant := Survivors(ord, su);
      var redundant := Dropped(ord, su);
      Ok(Selected(
        Ids(relevant),
        Ids(redundant) + Ids(ColumnsWhere(scores, threshold, false, |scores|)),
        DictOf(relevant + redundant)))
  }

  /** `fcbf` fails exactly when every column scores below the threshold. */
  lemma SelectFailsIff(scores: seq<real>, threshold: real, su: (nat, nat) -> real)
    ensures Select(scores, threshold, su) == Err(NoFeatureAboveThreshold) <==> forall i :: 0 <= i < |scores| ==> scores[i] < threshold
  {
    var kept := ColumnsWhere(scores, threshold, true, |scores|);
    ColumnsWhereLists(scores, threshold, true, |scores|);
    if kept != [] {
      assert scores[kept[0].id] >= threshold;
    }
  }

  lemma PickRanked(s: seq<Entry>, d: seq<nat>)
    requires Ranked(s)
    requires forall t :: 0 <= t < |d| ==> d[t] < |s|
    requires forall t, u :: 0 <= t < u < |d| ==> d[t] < d[u]
    ensures Ranked(Pick(s, d))
  {
    var p := Pick(s, d);
    forall t, u | 0 <= t < u < |p| ensures Score(p[t]) >= Score(p[u]) {
      assert Score(s[d[t]]) >= Score(s[d[u]]);
    }
    forall t, u | 0 <= t < u < |p| && Score(p[t]) == Score(p[u]) ensures Tag(p[t]) < Tag(p[u]) {
      assert Score(s[d[t]]) == Score(s[d[u]]);
    }
  }

  /** The survivors are entries of the ranking. */
  lemma SurvivorsInRanking(ord: seq<Entry>, su: (nat, nat) -> real)
    ensures forall t :: 0 <= t < |Survivors(ord, su)| ==> Survivors(ord, su)[t] in ord
  {
    var red := Redundant(ord, su);
    var d := Outside(red, 0, |ord|);
    OutsideFacts(red, 0, |ord|);
    var s := Survivors(ord, su);
    forall t | 0 <= t < |s| ensures s[t] in ord {
      assert s[t] == ord[d[t]];
    }
  }

  /** Dropping the redundant entries keeps the ranking's order. */
  lemma SurvivorsRanked(ord: seq<Entry>, su: (nat, nat) -> real)
    requires Ranked(ord)
    ensures Ranked(Survivors(ord, su))
  {
    var red := Redundant(ord, su);
    OutsideFacts(red, 0, |ord|);
    PickRanked(ord, Outside(red, 0, |ord|));
  }

  /** The first ranked entry always survives, in first place. */
  lemma SurvivorsStartWithFirst(ord: seq<Entry>, su: (nat, nat) -> real)
    requires |ord| > 0
    ensures |Survivors(ord, su)| > 0 && Survivors(ord, su)[0] == ord[0]
  {
    var red := Redundant(ord, su);
    var d := Outside(red, 0, |ord|);
    OutsideFacts(red, 0, |ord|);
    FirstRankedNotRedundant(ord, su);
    assert 0 in d;
    assert d[0] == 0;
  }

  /**
   * The ranked features that survive all reach the threshold and come in
   * non-increasing score order, with ties in column order.
   */
  lemma SurvivorsByScore(scores: seq<real>, threshold: real, su: (nat, nat) -> real)
    ensures var rel := Ids(Survivors(Ranking(scores, threshold), su));
      && (forall i :: 0 <= i < |rel| ==> rel[i] < |scores| && scores[rel[i]] >= threshold)
      && (forall i, j :: 0 <= i < j < |rel| ==> scores[rel[i]] >= scores[rel[j]])
      && (forall i, j :: 0 <= i < j < |rel| && scores[rel[i]] == scores[rel[j]] ==> rel[i] < rel[j])
  {
    var ord := Ranking(scores, threshold);
    var surv := Survivors(ord, su);
    var rel := Ids(surv);
    RankingEntries(scores, threshold);
    RankingOrder(scores, threshold);
    SurvivorsInRanking(ord, su);
    SurvivorsRanked(ord, su);
    forall i | 0 <= i < |rel| ensures rel[i] < |scores| && scores[rel[i]] >= threshold && scores[rel[i]] == surv[i].score {
      var k :| 0 <= k < |ord| && ord[k] == surv[i];
    }
    forall i, j | 0 <= i < j < |rel| ensures scores[rel[i]] >= scores[rel[j]] {
      assert Score(surv[i]) >= Score(surv[j]);
    }
    forall i, j | 0 <= i < j < |rel| && scores[rel[i]] == scores[rel[j]] ensures rel[i] < rel[j] {
      assert Score(surv[i]) == Score(surv[j]);
      assert Tag(surv[i]) < Tag(surv[j]);
    }
  }

  /**
   * When some column reaches the threshold, some ranked feature survives,
   * and the first survivor has the highest score of all columns.
   */
  lemma TopSurvivorIsBest(scores: seq<real>, threshold: real, su: (nat, nat) -> real)
    requires ColumnsWhere(scores, threshold, true, |scores|) != []
    ensures var rel := Ids(Survivors(Ranking(scores, threshold), su));
      && |rel| > 0 && rel[0] < |scores|
      && (forall k :: 0 <= k < |scores| ==> scores[k] <= scores[rel[0]])
  {
    var kept := ColumnsWhere(scores, threshold, true, |scores|);
    var ord := Ranking(scores, threshold);
    var rel := Ids(Survivors(ord, su));
    RankingEntries(scores, threshold);
    assert |ord| == |multiset(ord)| == |multiset(kept)| == |kept| > 0;
    SurvivorsStartWithFirst(ord, su);
    assert rel[0] == ord[0].id;
    forall k | 0 <= k < |scores| ensures scores[k] <= scores[rel[0]] {
      if scores[k] >= threshold {
        var t :| 0 <= t < |ord| && ord[t] == Entry(k, scores[k]);
        if t > 0 {
          assert Score(ord[0]) >= Score(ord[t]);
        }
      }
    }
  }

  /**
   * The relevant features are not empty, all reach the threshold, come in
   * non-increasing score order with ties in column order, and the first of
   * them has the highest score of all columns.
   */
  lemma SelectRanking(scores: seq<real>, threshold: real, su: (nat, nat) -> real)
    requires exists i :: 0 <= i < |scores| && scores[i] >= threshold
    ensures Select(scores, threshold, su).Ok?
    ensures var rel := Select(scores, threshold, su).value.relevant;
      && |rel| > 0
      && (forall i :: 0 <= i < |rel| ==> rel[i] < |scores| && scores[rel[i]] >= threshold)
      && (forall i, j :: 0 <= i < j < |rel| ==> scores[rel[i]] >= scores[rel[j]])
      && (forall i, j :: 0 <= i < j < |rel| && scores[rel[i]] == scores[rel[j]] ==> rel[i] < rel[j])
      && (forall k :: 0 <= k < |scores| ==> scores[k] <= scores[rel[0]])
  {
    SelectFailsIff(scores, threshold, su);
    assert Select(scores, threshold, su).value.relevant == Ids(Survivors(Ranking(scores, threshold), su));
    SurvivorsByScore(scores, threshold, su);
    TopSurvivorIsBest(scores, threshold, su);
  }

  /** The dropped entries are entries of the ranking. */
  lemma DroppedInRanking(ord: seq<Entry>, su: (nat, nat) -> real)
    ensures forall t :: 0 <= t < |Dropped(ord, su)| ==> Dropped(ord, su)[t] in ord
  {
    var red := Redundant(ord, su);
    var d := InsideDesc(red, |ord|);
    InsideDescFacts(red, |ord|);
    var s := Dropped(ord, su);
    forall t | 0 <= t < |s| ensures s[t] in ord {
      assert s[t] == ord[d[t]];
    }
  }

  /** The positions of the survivors and then of the dropped entries: every rank once. */
  function RankOrder(ord: seq<Entry>, su: (nat, nat) -> real): seq<nat> {
    Outside(Redundant(ord, su), 0, |ord|) + InsideDesc(Redundant(ord, su), |ord|)
  }

  /**
   * Survivors followed by the dropped entries pick every rank of the
   * ranking exactly once.
   */
  lemma SurvivorsAndDroppedCoverRanks(ord: seq<Entry>, su: (nat, nat) -> real)
    ensures NoDup(RankOrder(ord, su))
    ensures forall t :: 0 <= t < |RankOrder(ord, su)| ==> RankOrder(ord, su)[t] < |ord|
    ensures forall k: nat :: k < |ord| ==> k in RankOrder(ord, su)
    ensures Survivors(ord, su) + Dropped(ord, su) == Pick(ord, RankOrder(ord, su))
  {
    var red := Redundant(ord, su);
    var d := Outside(red, 0, |ord|);
    var dd := InsideDesc(red, |ord|);
    var e := RankOrder(ord, su);
    OutsideFacts(red, 0, |ord|);
    InsideDescFacts(red, |ord|);
    assert NoDup(d) && NoDup(dd);
    NoDupAppend(d, dd);
    forall t | 0 <= t < |e| ensures e[t] < |ord| {
      if t >= |d| {
        assert e[t] == dd[t - |d|];
      }
    }
    forall k: nat | k < |ord| ensures k in e {
      if k in red {
        assert k in dd;
      } else {
        assert k in d;
      }
    }
    PickAppend(ord, d, dd);
  }

  /** The survivors and the dropped entries together hold exactly the entries of the ranking. */
  lemma SurvivorsAndDroppedAreRanking(ord: seq<Entry>, su: (nat, nat) -> real)
    ensures forall x :: x in Survivors(ord, su) + Dropped(ord, su) <==> x in ord
  {
    var e := RankOrder(ord, su);
    var items := Survivors(ord, su) + Dropped(ord, su);
    SurvivorsAndDroppedCoverRanks(ord, su);
    forall x ensures x in items <==> x in ord {
      if x in items {
        var t :| 0 <= t < |items| && items[t] == x;
        assert x == ord[e[t]];
      }
      if x in ord {
        var k: nat :| k < |ord| && ord[k] == x;
        assert k in e;
        var u :| 0 <= u < |e| && e[u] == k;
        assert items[u] == x;
      }
    }
  }

  /** No surviving feature is made redundant by a survivor ranked above it. */
  lemma SurvivorsNotDominated(ord: seq<Entry>, su: (nat, nat) -> real)
    ensures var s := Survivors(ord, su);
      forall i, j :: 0 <= i < j < |s| ==> su(s[i].id, s[j].id) < s[j].score
  {
    var red := Redundant(ord, su);
    var d := Outside(red, 0, |ord|);
    OutsideFacts(red, 0, |ord|);
    var s := Survivors(ord, su);
    forall i, j | 0 <= i < j < |s| ensures su(s[i].id, s[j].id) < s[j].score {
      RedundantIff(ord, su, d[j]);
      assert !Dominates(ord, su, d[i], d[j]);
    }
  }

  /**
   * Every dropped feature is made redundant by a surviving feature with a
   * score at least its own: the survivor at `j`.
   */
  lemma DroppedIsDominated(ord: seq<Entry>, su: (nat, nat) -> real, t: nat) returns (j: nat)
    requires NonIncreasing(ord, Score)
    requires t < |Dropped(ord, su)|
    ensures j < |Survivors(ord, su)|
    ensures Survivors(ord, su)[j].score >= Dropped(ord, su)[t].score
    ensures su(Survivors(ord, su)[j].id, Dropped(ord, su)[t].id) >= Dropped(ord, su)[t].score
  {
    var red := Redundant(ord, su);
    var d := Outside(red, 0, |ord|);
    var dd := InsideDesc(red, |ord|);
    OutsideFacts(red, 0, |ord|);
    InsideDescFacts(red, |ord|);
    var q := dd[t];
    RedundantIff(ord, su, q);
    var p :| 0 <= p < q && p !in red && Dominates(ord, su, p, q);
    assert p in d;
    j :| 0 <= j < |d| && d[j] == p;
    assert Survivors(ord, su)[j] == ord[p] && Dropped(ord, su)[t] == ord[q];
    assert Score(ord[p]) >= Score(ord[q]);
  }

  lemma IdsAppend(a: seq<Entry>, b: seq<Entry>)
    ensures Ids(a + b) == Ids(a) + Ids(b)
  {
    var l := Ids(a + b);
    var r := Ids(a) + Ids(b);
    forall t | 0 <= t < |l| ensures l[t] == r[t] {
      if t < |a| {
        assert (a + b)[t] == a[t];
      } else {
        assert (a + b)[t] == b[t - |a|];
      }
    }
  }

  /**
   * The surviving and the dropped features name each column that reaches
   * the threshold once, and no other column.
   */
  lemma RankedIds(scores: seq<real>, threshold: real, su: (nat, nat) -> real)
    ensures var ord := Ranking(scores, threshold);
      var ids := Ids(Survivors(ord, su)) + Ids(Dropped(ord, su));
      && NoDup(ids)
      && (forall v: nat :: v in ids <==> v < |scores| && scores[v] >= threshold)
  {
    var ord := Ranking(scores, threshold);
    var e := RankOrder(ord, su);
    var surv, drop := Survivors(ord, su), Dropped(ord, su);
    var ids := Ids(surv) + Ids(drop);
    RankingEntries(scores, threshold);
    RankingOrder(scores, threshold);
    SurvivorsAndDroppedCoverRanks(ord, su);
    IdsAppend(surv, drop);
    assert ids == Ids(Pick(ord, e));
    PickKeepsIdsDistinct(ord, e);
    forall v: nat ensures v in ids <==> v < |scores| && scores[v] >= threshold {
      if v in ids {
        var t :| 0 <= t < |ids| && ids[t] == v;
        assert ord[e[t]].id == v;
      }
      if v < |scores| && scores[v] >= threshold {
        var t: nat :| t < |ord| && ord[t] == Entry(v, scores[v]);
        assert t in e;
        var u :| 0 <= u < |e| && e[u] == t;
        assert ids[u] == v;
      }
    }
  }

  /** The features of `S_removed` name each column below the threshold once, and no other column. */
  lemma BelowIds(scores: seq<real>, threshold: real)
    ensures var ids := Ids(ColumnsWhere(scores, threshold, false, |scores|));
      && NoDup(ids)
      && (forall v: nat :: v in ids <==> v < |scores| && scores[v] < threshold)
  {
    var below := ColumnsWhere(scores, threshold, false, |scores|);
    var ids := Ids(below);
    ColumnsWhereLists(scores, threshold, false, |scores|);
    forall t, u | 0 <= t < u < |ids| ensures ids[t] != ids[u] {
      assert below[t].id < below[u].id;
    }
    forall v: nat ensures v in ids <==> v < |scores| && scores[v] < threshold {
      if v in ids {
        var t :| 0 <= t < |ids| && ids[t] == v;
        assert below[t].id == v;
      }
      if v < |scores| && scores[v] < threshold {
        var t :| 0 <= t < |below| && below[t] == Entry(v, scores[v]);
        assert ids[t] == v;
      }
    }
  }

  /**
   * Relevant and irrelevant features together name every column exactly
   * once, and every column below the threshold is irrelevant.
   */
  lemma SelectPartition(scores: seq<real>, threshold: real, su: (nat, nat) -> real)
    requires exists i :: 0 <= i < |scores| && scores[i] >= threshold
    ensures Select(scores, threshold, su).Ok?
    ensures var r := Select(scores, threshold, su).value;
      && NoDup(r.relevant + r.irrelevant)
      && (forall k: nat :: k in r.relevant + r.irrelevant <==> k < |scores|)
      && (forall k: nat :: k < |scores| && scores[k] < threshold ==> k in r.irrelevant)
  {
    SelectFailsIff(scores, threshold, su);
    var ord := Ranking(scores, threshold);
    var ranked := Ids(Survivors(ord, su)) + Ids(Dropped(ord, su));
    var below := Ids(ColumnsWhere(scores, threshold, false, |scores|));
    var r := Select(scores, threshold, su).value;
    assert r.relevant == Ids(Survivors(ord, su));
    assert r.irrelevant == Ids(Dropped(ord, su)) + below;
    assert r.relevant + r.irrelevant == ranked + below;
    RankedIds(scores, threshold, su);
    BelowIds(scores, threshold);
    NoDupAppend(ranked, below);
    forall k: nat | k < |scores| && scores[k] < threshold ensures k in r.irrelevant {
      assert k in below;
    }
  }

  /**
   * The correlation values map exactly the columns that reach the threshold,
   * each to its own score.
   */
  lemma SelectCorrelations(scores: seq<real>, threshold: real, su: (nat, nat) -> real)
    requires exists i :: 0 <= i < |scores| && scores[i] >= threshold
    ensures Select(scores, threshold, su).Ok?
    ensures var c := Select(scores, threshold, su).value.correlations;
      && c.Keys == set k | 0 <= k < |scores| && scores[k] >= threshold
      && (forall k :: k in c ==> k < |scores| && c[k] == scores[k])
  {
    SelectFailsIff(scores, threshold, su);
    var ord := Ranking(scores, threshold);
    var items := Survivors(ord, su) + Dropped(ord, su);
    RankingEntries(scores, threshold);
    SurvivorsAndDroppedAreRanking(ord, su);
    DictOfScores(scores, threshold, ord, items);
  }

  /**
   * `dict(items)`, when `items` holds the same entries as a list of exactly
   * the columns that reach the threshold, each with its own score.
   */
  lemma DictOfScores(scores: seq<real>, threshold: real, ord: seq<Entry>, items: seq<Entry>)
    requires forall k :: 0 <= k < |ord| ==> ord[k].id < |scores| && ord[k].score == scores[ord[k].id] && ord[k].score >= threshold
    requires forall i :: 0 <= i < |scores| && scores[i] >= threshold ==> Entry(i, scores[i]) in ord
    requires forall x :: x in items <==> x in ord
    ensures DictOf(items).Keys == set k | 0 <= k < |scores| && scores[k] >= threshold
    ensures forall k :: k in DictOf(items) ==> k < |scores| && DictOf(items)[k] == scores[k]
  {
    var c := DictOf(items);
    forall k ensures k in c <==> 0 <= k < |scores| && scores[k] >= threshold {
      if k in c {
        var x :| x in items && x.id == k;
        var t :| 0 <= t < |ord| && ord[t] == x;
      }
      if 0 <= k < |scores| && scores[k] >= threshold {
        assert Entry(k, scores[k]) in items;
      }
    }
    forall k | k in c ensures k < |scores| && c[k] == scores[k] {
      var t :| 0 <= t < |ord| && ord[t] == Entry(k, c[k]);
    }
  }

  /** On the ranking, no survivor is made redundant by a survivor ranked above it. */
  lemma RankedSurvivorsNotDominated(scores: seq<real>, threshold: real, su: (nat, nat) -> real)
    ensures var rel := Ids(Survivors(Ranking(scores, threshold), su));
      && (forall i :: 0 <= i < |rel| ==> rel[i] < |scores|)
      && (forall i, j :: 0 <= i < j < |rel| ==> su(rel[i], rel[j]) < scores[rel[j]])
  {
    var ord := Ranking(scores, threshold);
    var surv := Survivors(ord, su);
    var rel := Ids(surv);
    RankingEntries(scores, threshold);
    SurvivorsInRanking(ord, su);
    SurvivorsNotDominated(ord, su);
    forall i | 0 <= i < |rel| ensures rel[i] < |scores| && scores[rel[i]] == surv[i].score {
      var t :| 0 <= t < |ord| && ord[t] == surv[i];
    }
  }

  /** On the ranking, each dropped feature is made redundant by a survivor scoring at least as high. */
  lemma RankedDroppedAreDominated(scores: seq<real>, threshold: real, su: (nat, nat) -> real,
                                   ord: seq<Entry>, rel: seq<nat>, drop: seq<nat>)
    requires ord == Ranking(scores, threshold)
    requires rel == Ids(Survivors(ord, su))
    requires drop == Ids(Dropped(ord, su))
    ensures forall i :: 0 <= i < |rel| ==> rel[i] < |scores|
    ensures forall k :: 0 <= k < |scores| && k in drop ==>
      exists j :: 0 <= j < |rel| && scores[rel[j]] >= scores[k] && su(rel[j], k) >= scores[k]
  {
    var surv, dropped := Survivors(ord, su), Dropped(ord, su);
    RankingEntries(scores, threshold);
    SurvivorsInRanking(ord, su);
    DroppedInRanking(ord, su);
    forall i | 0 <= i < |rel| ensures rel[i] < |scores| && scores[rel[i]] == surv[i].score {
      var t :| 0 <= t < |ord| && ord[t] == surv[i];
    }
    forall k | 0 <= k < |scores| && k in drop
      ensures exists j :: 0 <= j < |rel| && scores[rel[j]] >= scores[k] && su(rel[j], k) >= scores[k]
    {
      var t :| 0 <= t < |drop| && drop[t] == k;
      assert dropped[t].id == k;
      var o :| 0 <= o < |ord| && ord[o] == dropped[t];
      var j := DroppedIsDominated(ord, su, t);
      assert rel[j] == surv[j].id;
    }
  }

  /**
   * The redundancy guarantee: no relevant feature is made redundant by a
   * relevant feature ranked above it, and every irrelevant feature that
   * reaches the threshold is made redundant by a relevant feature whose
   * score is at least its own.
   */
  lemma SelectRedundancy(scores: seq<real>, threshold: real, su: (nat, nat) -> real)
    requires exists i :: 0 <= i < |scores| && scores[i] >= threshold
    ensures Select(scores, threshold, su).Ok?
    ensures var r := Select(scores, threshold, su).value;
      var rel := r.relevant;
      && (forall i :: 0 <= i < |rel| ==> rel[i] < |scores|)
      && (forall i, j :: 0 <= i < j < |rel| ==> su(rel[i], rel[j]) < scores[rel[j]])
      && (forall k :: 0 <= k < |scores| && k in r.irrelevant && scores[k] >= threshold ==>
            exists j :: 0 <= j < |rel| && scores[rel[j]] >= scores[k] && su(rel[j], k) >= scores[k])
  {
    SelectFailsIff(scores, threshold, su);
    var ord := Ranking(scores, threshold);
    var drop := Ids(Dropped(ord, su));
    var below := Ids(ColumnsWhere(scores, threshold, false, |scores|));
    var r := Select(scores, threshold, su).value;
    assert r.relevant == Ids(Survivors(ord, su));
    assert r.irrelevant == drop + below;
    RankedSurvivorsNotDominated(scores, threshold, su);
    RankedDroppedAreDominated(scores, threshold, su, ord, r.relevant, drop);
    BelowIds(scores, threshold);
  }

  /** Picking a ranked list at decreasing positions reverses its order: non-decreasing scores, ties in decreasing column order. */
  lemma PickReversed(s: seq<Entry>, d: seq<nat>)
    requires Ranked(s)
    requires forall t :: 0 <= t < |d| ==> d[t] < |s|
    requires forall t, u :: 0 <= t < u < |d| ==> d[t] > d[u]
    ensures forall t, u :: 0 <= t < u < |Pick(s, d)| ==> Pick(s, d)[t].score <= Pick(s, d)[u].score
    ensures forall t, u :: 0 <= t < u < |Pick(s, d)| && Pick(s, d)[t].score == Pick(s, d)[u].score ==>
      Pick(s, d)[t].id > Pick(s, d)[u].id
  {
    var p := Pick(s, d);
    forall t, u | 0 <= t < u < |p| ensures p[t].score <= p[u].score {
      assert Score(s[d[u]]) >= Score(s[d[t]]);
    }
    forall t, u | 0 <= t < u < |p| && p[t].score == p[u].score ensures p[t].id > p[u].id {
      assert Score(s[d[u]]) == Score(s[d[t]]);
    }
  }

  /** The redundant features from the last rank to the first: scores at or above the threshold, non-decreasing, ties in decreasing column order. */
  lemma DroppedByScore(scores: seq<real>, threshold: real, su: (nat, nat) -> real, drop: seq<nat>)
    requires drop == Ids(Dropped(Ranking(scores, threshold), su))
    ensures && (forall i :: 0 <= i < |drop| ==> drop[i] < |scores| && scores[drop[i]] >= threshold)
      && (forall i, j :: 0 <= i < j < |drop| ==> scores[drop[i]] <= scores[drop[j]])
      && (forall i, j :: 0 <= i < j < |drop| && scores[drop[i]] == scores[drop[j]] ==> drop[i] > drop[j])
  {
    var ord := Ranking(scores, threshold);
    var dropped := Dropped(ord, su);
    var red := Redundant(ord, su);
    InsideDescFacts(red, |ord|);
    RankingOrder(scores, threshold);
    PickReversed(ord, InsideDesc(red, |ord|));
    RankingEntries(scores, threshold);
    DroppedInRanking(ord, su);
    forall i | 0 <= i < |dropped| ensures dropped[i].id < |scores| && scores[dropped[i].id] == dropped[i].score >= threshold {
      var t :| 0 <= t < |ord| && ord[t] == dropped[i];
    }
  }

  /** The features of `S_removed` are below the threshold, in increasing column order. */
  lemma BelowInColumnOrder(scores: seq<real>, threshold: real, below: seq<nat>)
    requires below == Ids(ColumnsWhere(scores, threshold, false, |scores|))
    ensures && (forall i :: 0 <= i < |below| ==> below[i] < |scores| && scores[below[i]] < threshold)
      && (forall i, j :: 0 <= i < j < |below| ==> below[i] < below[j])
  {
    ColumnsWhereOnSide(scores, threshold, false, |scores|);
    ColumnsWhereIncreasing(scores, threshold, false, |scores|);
  }

  /**
   * A list of features at or above the threshold in non-decreasing score
   * order, followed by a list of features below it in column order, split
   * at `m`.
   */
  lemma ConcatOrder(scores: seq<real>, threshold: real, drop: seq<nat>, below: seq<nat>, irr: seq<nat>) returns (m: nat)
    requires forall i :: 0 <= i < |drop| ==> drop[i] < |scores| && scores[drop[i]] >= threshold
    requires forall i, j :: 0 <= i < j < |drop| ==> scores[drop[i]] <= scores[drop[j]]
    requires forall i, j :: 0 <= i < j < |drop| && scores[drop[i]] == scores[drop[j]] ==> drop[i] > drop[j]
    requires forall i :: 0 <= i < |below| ==> below[i] < |scores| && scores[below[i]] < threshold
    requires forall i, j :: 0 <= i < j < |below| ==> below[i] < below[j]
    requires irr == drop + below
    ensures m == |drop| <= |irr|
    ensures forall i :: 0 <= i < |irr| ==> irr[i] < |scores|
    ensures forall i :: 0 <= i < m ==> scores[irr[i]] >= threshold
    ensures forall i, j :: 0 <= i < j < m ==> scores[irr[i]] <= scores[irr[j]]
    ensures forall i, j :: 0 <= i < j < m && scores[irr[i]] == scores[irr[j]] ==> irr[i] > irr[j]
    ensures forall i :: m <= i < |irr| ==> scores[irr[i]] < threshold
    ensures forall i, j :: m <= i < j < |irr| ==> irr[i] < irr[j]
  {
    m := |drop|;
    assert forall i :: 0 <= i < m ==> irr[i] == drop[i];
    assert forall i :: m <= i < |irr| ==> irr[i] == below[i - m];
  }

  /** The redundant features followed by those of `S_removed`, split at `m`. */
  lemma RankedIrrelevantOrder(scores: seq<real>, threshold: real, su: (nat, nat) -> real, irr: seq<nat>) returns (m: nat)
    requires irr == Ids(Dropped(Ranking(scores, threshold), su)) + Ids(ColumnsWhere(scores, threshold, false, |scores|))
    ensures m <= |irr|
    ensures forall i :: 0 <= i < |irr| ==> irr[i] < |scores|
    ensures forall i :: 0 <= i < m ==> scores[irr[i]] >= threshold
    ensures forall i, j :: 0 <= i < j < m ==> scores[irr[i]] <= scores[irr[j]]
    ensures forall i, j :: 0 <= i < j < m && scores[irr[i]] == scores[irr[j]] ==> irr[i] > irr[j]
    ensures forall i :: m <= i < |irr| ==> scores[irr[i]] < threshold
    ensures forall i, j :: m <= i < j < |irr| ==> irr[i] < irr[j]
  {
    var drop := Ids(Dropped(Ranking(scores, threshold), su));
    var below := Ids(ColumnsWhere(scores, threshold, false, |scores|));
    DroppedByScore(scores, threshold, su, drop);
    BelowInColumnOrder(scores, threshold, below);
    m := ConcatOrder(scores, threshold, drop, below, irr);
  }

  /**
   * The irrelevant list is the redundant features, from the last rank to
   * the first (non-decreasing score, ties in decreasing column order),
   * followed by the columns below the threshold in column order; the
   * returned `m` is where the second part starts.
   */
  lemma SelectIrrelevantOrder(scores: seq<real>, threshold: real, su: (nat, nat) -> real) returns (m: nat)
    requires exists i :: 0 <= i < |scores| && scores[i] >= threshold
    ensures Select(scores, threshold, su).Ok?
    ensures var irr := Select(scores, threshold, su).value.irrelevant;
      && m <= |irr|
      && (forall i :: 0 <= i < |irr| ==> irr[i] < |scores|)
      && (forall i :: 0 <= i < m ==> scores[irr[i]] >= threshold)
      && (forall i, j :: 0 <= i < j < m ==> scores[irr[i]] <= scores[irr[j]])
      && (forall i, j :: 0 <= i < j < m && scores[irr[i]] == scores[irr[j]] ==> irr[i] > irr[j])
      && (forall i :: m <= i < |irr| ==> scores[irr[i]] < threshold)
      && (forall i, j :: m <= i < j < |irr| ==> irr[i] < irr[j])
  {
    SelectFailsIff(scores, threshold, su);
    m := RankedIrrelevantOrder(scores, threshold, su, Select(scores, threshold, su).value.irrelevant);
  }
}
