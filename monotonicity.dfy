/**
 * How the threshold of `fcbf` in fcbf/fcbf.py shapes its ranking and its
 * relevant list: a higher threshold cuts the ranking to a prefix, and the
 * redundancy of a ranked feature depends only on the features ranked above
 * it, so the relevant list at a higher threshold is a prefix of the one at
 * a lower threshold.
 */
module Monotonicity {
  import opened Sorting
  import opened Selection

  /** Two `Ranked` lists that hold each other's first entries start with the same entry. */
  lemma RankedHeads(a: seq<Entry>, b: seq<Entry>)
    requires Ranked(a) && Ranked(b)
    requires a != [] && b != [] && a[0] in b && b[0] in a
    ensures a[0] == b[0]
  {
    var i :| 0 <= i < |a| && a[i] == b[0];
    var j :| 0 <= j < |b| && b[j] == a[0];
    assert Score(a[0]) == Score(b[0]);
    assert Tag(a[0]) <= Tag(b[0]);
    assert Tag(b[0]) <= Tag(a[0]);
  }

  /** Without its first entry, a `Ranked` list with distinct tags stays so, and it holds the other entries. */
  lemma RankedTail(a: seq<Entry>)
    requires Ranked(a) && DistinctTags(a, Tag) && a != []
    ensures Ranked(a[1..]) && DistinctTags(a[1..], Tag)
    ensures forall e :: e in a[1..] <==> e in a && e != a[0]
  {
    var a' := a[1..];
    assert forall t :: 0 <= t < |a'| ==> a'[t] == a[t + 1];
    forall e ensures e in a' <==> e in a && e != a[0] {
      if e in a' {
        var t :| 0 <= t < |a'| && a'[t] == e;
        assert Tag(a[0]) != Tag(a[t + 1]);
      }
      if e in a && e != a[0] {
        var u :| 0 <= u < |a| && a[u] == e;
        assert a'[u - 1] == e;
      }
    }
  }

  /** Two `Ranked` lists that name no column twice and hold the same entries are the same list. */
  lemma {:induction false} RankedUnique(a: seq<Entry>, b: seq<Entry>)
    requires Ranked(a) && DistinctTags(a, Tag)
    requires Ranked(b) && DistinctTags(b, Tag)
    requires forall e :: e in a <==> e in b
    ensures a == b
  {
    if a != [] || b != [] {
      assert a != [] ==> a[0] in b;
      assert b != [] ==> b[0] in a;
      RankedHeads(a, b);
      RankedTail(a);
      RankedTail(b);
      RankedUnique(a[1..], b[1..]);
      assert a == [a[0]] + a[1..] && b == [b[0]] + b[1..];
    }
  }

  /** In a list of non-increasing scores, the entries scoring at least `t` are the first `k`. */
  lemma {:induction false} CutPoint(s: seq<Entry>, t: real) returns (k: nat)
    requires NonIncreasing(s, Score)
    ensures k <= |s|
    ensures forall i :: 0 <= i < |s| ==> (i < k <==> s[i].score >= t)
  {
    if s == [] {
      k := 0;
    } else if s[|s| - 1].score >= t {
      k := |s|;
      assert forall i :: 0 <= i < |s| ==> Score(s[i]) >= Score(s[|s| - 1]);
    } else {
      var init := s[..|s| - 1];
      assert forall i :: 0 <= i < |init| ==> init[i] == s[i];
      k := CutPoint(init, t);
      forall i | 0 <= i < |s| ensures i < k <==> s[i].score >= t {
        if i < |s| - 1 {
          assert s[i] == init[i];
        }
      }
    }
  }

  /** Raising the threshold from `t1` to `t2` keeps the first entries of the ranking and drops the rest. */
  lemma RankingAtHigherThreshold(scores: seq<real>, t1: real, t2: real)
    requires t1 <= t2
    ensures |Ranking(scores, t2)| <= |Ranking(scores, t1)|
    ensures Ranking(scores, t2) == Ranking(scores, t1)[..|Ranking(scores, t2)|]
  {
    var p := Ranking(scores, t1);
    var r := Ranking(scores, t2);
    RankingOrder(scores, t1);
    RankingOrder(scores, t2);
    RankingEntries(scores, t1);
    RankingEntries(scores, t2);
    var k := CutPoint(p, t2);
    RankedPrefix(p, k);
    CutHoldsRanking(scores, t2, p, r, k);
    RankedUnique(p[..k], r);
  }

  /** A prefix of a `Ranked` list with distinct tags is one too. */
  lemma RankedPrefix(s: seq<Entry>, k: nat)
    requires Ranked(s) && DistinctTags(s, Tag)
    requires k <= |s|
    ensures Ranked(s[..k]) && DistinctTags(s[..k], Tag)
  {
    var head := s[..k];
    assert forall i :: 0 <= i < k ==> head[i] == s[i];
  }

  /**
   * When `p` and `r` list the columns reaching thresholds `t1 <= t2`, each
   * with its own score, and the first `k` entries of `p` are those scoring
   * at least `t2`, those `k` entries are the entries of `r`.
   */
  lemma CutHoldsRanking(scores: seq<real>, t2: real, p: seq<Entry>, r: seq<Entry>, k: nat)
    requires forall i :: 0 <= i < |p| ==> p[i].id < |scores| && p[i].score == scores[p[i].id]
    requires forall i :: 0 <= i < |r| ==> r[i].id < |scores| && r[i].score == scores[r[i].id] && r[i].score >= t2
    requires forall i :: 0 <= i < |scores| && scores[i] >= t2 ==> Entry(i, scores[i]) in p
    requires forall i :: 0 <= i < |scores| && scores[i] >= t2 ==> Entry(i, scores[i]) in r
    requires k <= |p|
    requires forall i :: 0 <= i < |p| ==> (i < k <==> p[i].score >= t2)
    ensures forall e :: e in p[..k] <==> e in r
  {
    var head := p[..k];
    forall e ensures e in head <==> e in r {
      if e in head {
        var i :| 0 <= i < k && head[i] == e;
        assert p[i] == e && e.score >= t2;
        assert e == Entry(e.id, scores[e.id]);
      }
      if e in r {
        var i :| 0 <= i < |r| && r[i] == e;
        assert e == Entry(e.id, scores[e.id]) && e.id < |scores| && scores[e.id] >= t2;
        var u :| 0 <= u < |p| && p[u] == e;
        assert u < k;
        assert head[u] == e;
      }
    }
  }

  /** On the first `k` ranks, the redundant ranks are those `RedundantBelow` finds below `k`. */
  lemma {:induction false} RedundantBelowOfPrefix(ord: seq<Entry>, su: (nat, nat) -> real, k: nat, n: nat)
    requires n <= k <= |ord|
    ensures RedundantBelow(ord[..k], su, n) == RedundantBelow(ord, su, n)
  {
    if n > 0 {
      RedundantBelowOfPrefix(ord, su, k, n - 1);
      var q := n - 1;
      forall p | 0 <= p < q
        ensures Dominates(ord[..k], su, p, q) <==> Dominates(ord, su, p, q)
      {
        assert ord[..k][p] == ord[p] && ord[..k][q] == ord[q];
      }
    }
  }

  /** The survivors among the first `k` ranks are the first survivors of the whole ranking. */
  lemma SurvivorsOfPrefix(ord: seq<Entry>, su: (nat, nat) -> real, k: nat)
    requires k <= |ord|
    ensures |Survivors(ord[..k], su)| <= |Survivors(ord, su)|
    ensures Survivors(ord[..k], su) == Survivors(ord, su)[..|Survivors(ord[..k], su)|]
  {
    var red := Redundant(ord, su);
    var below := RedundantBelow(ord, su, k);
    RedundantBelowOfPrefix(ord, su, k, k);
    assert Redundant(ord[..k], su) == below;
    RedundantBelowPrefix(ord, su, k, |ord|);
    OutsideFrame(below, red, 0, k);
    var d1 := Outside(red, 0, k);
    var d2 := Outside(red, k, |ord|);
    OutsideSplit(red, 0, k, |ord|);
    OutsideFacts(red, 0, k);
    OutsideFacts(red, k, |ord|);
    PickAppend(ord, d1, d2);
    assert Survivors(ord, su) == Pick(ord, d1) + Pick(ord, d2);
    assert Survivors(ord[..k], su) == Pick(ord[..k], d1);
    assert Pick(ord[..k], d1) == Pick(ord, d1);
  }

  /** `Ids` of a prefix is the prefix of `Ids`. */
  lemma IdsOfPrefix(s: seq<Entry>, m: nat)
    requires m <= |s|
    ensures Ids(s[..m]) == Ids(s)[..m]
  {
  }

  /**
   * Threshold monotonicity: when `fcbf` succeeds at threshold `t2`, it also
   * succeeds at any lower threshold `t1`, and the relevant list at `t2` is
   * a prefix of the relevant list at `t1`, so it is never longer.
   */
  lemma SelectThresholdMonotone(scores: seq<real>, t1: real, t2: real, su: (nat, nat) -> real)
    requires t1 <= t2
    requires exists i :: 0 <= i < |scores| && scores[i] >= t2
    ensures Select(scores, t2, su).Ok? && Select(scores, t1, su).Ok?
    ensures |Select(scores, t2, su).value.relevant| <= |Select(scores, t1, su).value.relevant|
    ensures Select(scores, t2, su).value.relevant
         == Select(scores, t1, su).value.relevant[..|Select(scores, t2, su).value.relevant|]
  {
    SelectFailsIff(scores, t1, su);
    SelectFailsIff(scores, t2, su);
    var p := Ranking(scores, t1);
    var r := Ranking(scores, t2);
    RankingAtHigherThreshold(scores, t1, t2);
    SurvivorsOfPrefix(p, su, |r|);
    var s1 := Survivors(p, su);
    var s2 := Survivors(r, su);
    IdsOfPrefix(s1, |s2|);
    assert Select(scores, t1, su).value.relevant == Ids(s1);
    assert Select(scores, t2, su).value.relevant == Ids(s2);
  }
}
