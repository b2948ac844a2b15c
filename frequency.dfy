/**
 * Empirical frequency tables over categorical values: the marginal
 * distribution computed by `prior` and the conditional distribution computed
 * by `cond_proba` in fcbf/fcbf.py. A categorical variable is a sequence of
 * values of any equality type; two variables used together are aligned, so
 * they have the same length.
 */
module Frequency {

  /** Number of samples whose value is `v`. */
  function Count<T(==)>(s: seq<T>, v: T): (c: nat)
    ensures c <= |s|
    ensures c == 0 <==> v !in s
  {
    if s == [] then 0 else (if s[0] == v then 1 else 0) + Count(s[1..], v)
  }

  /** No value occurs twice. */
  predicate NoDup<T(==)>(s: seq<T>) {
    forall i, j :: 0 <= i < j < |s| ==> s[i] != s[j]
  }

  /** The distinct values of `s`, each once: an enumeration of a table's keys. */
  function Distinct<T(==, !new)>(s: seq<T>): (d: seq<T>)
    ensures NoDup(d)
    ensures forall v :: v in d <==> v in s
  {
    if s == [] then []
    else
      var rest := Distinct(s[1..]);
      if s[0] in rest then rest else [s[0]] + rest
  }

  /** The rows of two aligned variables, as (x, y) pairs. */
  function Zip<X, Y>(xs: seq<X>, ys: seq<Y>): (z: seq<(X, Y)>)
    requires |xs| == |ys|
    ensures |z| == |xs|
    ensures forall i :: 0 <= i < |z| ==> z[i] == (xs[i], ys[i])
  {
    if xs == [] then [] else [(xs[0], ys[0])] + Zip(xs[1..], ys[1..])
  }

  /** Every row of `Zip(xs, ys)` carries a value of `xs` and a value of `ys`. */
  lemma ZipMembers<X, Y>(xs: seq<X>, ys: seq<Y>)
    requires |xs| == |ys|
    ensures forall p :: p in Zip(xs, ys) ==> p.0 in xs && p.1 in ys
  {
    var z := Zip(xs, ys);
    forall p | p in z ensures p.0 in xs && p.1 in ys {
      var i :| 0 <= i < |z| && z[i] == p;
      assert xs[i] == p.0 && ys[i] == p.1;
    }
  }

  /** The relative frequency `c / n` of a value seen `c` times in `n` samples. */
  function Frac(c: nat, n: nat): (r: real)
    requires 0 < c <= n
    ensures 0.0 < r <= 1.0
    ensures r * n as real == c as real
  {
    c as real / n as real
  }

  /**
   * `prior`: each observed value mapped to its count divided by the number
   * of samples (`value_counts()/n`).
   */
  function Prior<T(==)>(xs: seq<T>): (m: map<T, real>)
    ensures m.Keys == set v | v in xs
    ensures forall v :: v in m ==> m[v] == Frac(Count(xs, v), |xs|)
  {
    map v | v in xs :: Frac(Count(xs, v), |xs|)
  }

  /** `total = c/n + (rest/n)` and `p = c + rest` give `total = p/n`. */
  lemma RatioSumStep(total: real, restTotal: real, c: real, rest: real, p: real, n: real)
    requires n != 0.0
    requires restTotal == rest / n
    requires total == c / n + restTotal
    requires p == c + rest
    ensures total == p / n
  {
  }

  lemma SelfRatio(n: real)
    requires n > 0.0
    ensures n / n == 1.0
  {
  }

  lemma SumOfRatios(a: real, b: real, n: real)
    requires n != 0.0
    ensures a / n + b / n == (a + b) / n
  {
  }

  /** The sum of the masses `m` gives to the keys `ks`. */
  function MassSum<T>(m: map<T, real>, ks: seq<T>): real
    requires forall k :: k in ks ==> k in m
  {
    if ks == [] then 0.0 else m[ks[0]] + MassSum(m, ks[1..])
  }

  /** The sum of the counts of the values `ks` in `xs`. */
  function CountSum<T(==)>(xs: seq<T>, ks: seq<T>): nat {
    if ks == [] then 0 else Count(xs, ks[0]) + CountSum(xs, ks[1..])
  }

  /** Taking the first sample off `xs` takes one off the count of its value, once per listing in `ks`. */
  lemma {:induction false} CountSumSplit<T>(xs: seq<T>, ks: seq<T>)
    requires xs != []
    ensures CountSum(xs, ks) == Count(ks, xs[0]) + CountSum(xs[1..], ks)
  {
    if ks != [] {
      CountSumSplit(xs, ks[1..]);
    }
  }

  lemma {:induction false} CountOfUnique<T>(ks: seq<T>, v: T)
    requires NoDup(ks) && v in ks
    ensures Count(ks, v) == 1
  {
    if ks[0] == v {
      assert v !in ks[1..] by {
        forall j | 0 <= j < |ks[1..]| ensures ks[1..][j] != v {
          assert ks[1..][j] == ks[j + 1];
        }
      }
    } else {
      CountOfUnique(ks[1..], v);
    }
  }

  lemma {:induction false} CountSumOfEmpty<T>(ks: seq<T>)
    ensures CountSum([], ks) == 0
  {
    if ks != [] {
      CountSumOfEmpty(ks[1..]);
    }
  }

  /** The counts of the distinct values of a variable add up to its number of samples. */
  lemma {:induction false} CountsCover<T>(xs: seq<T>, ks: seq<T>)
    requires NoDup(ks)
    requires forall v :: v in xs ==> v in ks
    ensures CountSum(xs, ks) == |xs|
  {
    if xs == [] {
      CountSumOfEmpty(ks);
    } else {
      CountSumSplit(xs, ks);
      assert xs[0] in xs;
      CountOfUnique(ks, xs[0]);
      forall v | v in xs[1..] ensures v in ks {
        assert v in xs;
      }
      CountsCover(xs[1..], ks);
    }
  }

  lemma {:induction false} MassSumOfPrior<T>(xs: seq<T>, ks: seq<T>)
    requires |xs| > 0
    requires forall k :: k in ks ==> k in xs
    ensures forall k :: k in ks ==> k in Prior(xs)
    ensures MassSum(Prior(xs), ks) == CountSum(xs, ks) as real / |xs| as real
  {
    if ks != [] {
      MassSumOfPrior(xs, ks[1..]);
      var n := |xs| as real;
      var c := Count(xs, ks[0]) as real;
      var rest := CountSum(xs, ks[1..]) as real;
      assert ks[0] in xs;
      assert Prior(xs)[ks[0]] == c / n;
      SumOfRatios(c, rest, n);
    }
  }

  /**
   * The masses of `prior` over all observed values sum to 1.
   */
  lemma {:induction false} PriorSumsToOne<T>(xs: seq<T>, ks: seq<T>)
    requires |xs| > 0
    requires NoDup(ks)
    requires forall v :: v in ks <==> v in xs
    ensures forall k :: k in ks ==> k in Prior(xs)
    ensures MassSum(Prior(xs), ks) == 1.0
  {
    MassSumOfPrior(xs, ks);
    CountsCover(xs, ks);
    SelfRatio(|xs| as real);
  }

  lemma FrequencyRatio(c: real, cy: real, n: real)
    requires n > 0.0 && cy > 0.0
    ensures (c / n) / (cy / n) == c / cy
  {
  }

  /** A pair occurs no more often than its second component. */
  lemma {:induction false} PairCountBound<X, Y>(xs: seq<X>, ys: seq<Y>, x: X, y: Y)
    requires |xs| == |ys|
    ensures Count(Zip(xs, ys), (x, y)) <= Count(ys, y)
  {
    if xs != [] {
      PairCountBound(xs[1..], ys[1..], x, y);
      assert Zip(xs, ys)[1..] == Zip(xs[1..], ys[1..]);
    }
  }

  /**
   * `cond_proba`: each observed pair (x, y) mapped to
   * `(count(x, y) / n) / prior(y)[y]`, the probability of x given y.
   */
  function CondProba<X(==, !new), Y(==, !new)>(xs: seq<X>, ys: seq<Y>): (m: map<(X, Y), real>)
    requires |xs| == |ys|
    ensures m.Keys == set p | p in Zip(xs, ys)
    ensures forall x, y :: (x, y) in m ==>
      && y in ys
      && 0 < Count(Zip(xs, ys), (x, y)) <= Count(ys, y)
      && m[(x, y)] == Frac(Count(Zip(xs, ys), (x, y)), Count(ys, y))
  {
    var rows := Zip(xs, ys);
    var py := Prior(ys);
    ZipMembers(xs, ys);
    var m := map p | p in rows :: Frac(Count(rows, p), |rows|) / py[p.1];
    assert forall x, y :: (x, y) in m ==>
      (0 < Count(rows, (x, y)) <= Count(ys, y) && m[(x, y)] == Frac(Count(rows, (x, y)), Count(ys, y))) by {
      forall x, y | (x, y) in m
        ensures 0 < Count(rows, (x, y)) <= Count(ys, y) && m[(x, y)] == Frac(Count(rows, (x, y)), Count(ys, y))
      {
        PairCountBound(xs, ys, x, y);
        FrequencyRatio(Count(rows, (x, y)) as real, Count(ys, y) as real, |rows| as real);
      }
    }
    m
  }

  /** The conditional masses of the pairs (k, y) for the values `ks`; an unobserved pair has mass 0. */
  function CondMassSum<X(==), Y(==)>(m: map<(X, Y), real>, ks: seq<X>, y: Y): real {
    if ks == [] then 0.0
    else (if (ks[0], y) in m then m[(ks[0], y)] else 0.0) + CondMassSum(m, ks[1..], y)
  }

  /** The sum of the counts of the pairs (k, y) among `rows`. */
  function PairCountSum<X(==), Y(==)>(rows: seq<(X, Y)>, ks: seq<X>, y: Y): nat {
    if ks == [] then 0 else Count(rows, (ks[0], y)) + PairCountSum(rows, ks[1..], y)
  }

  lemma {:induction false} PairCountSumSplit<X, Y>(rows: seq<(X, Y)>, ks: seq<X>, y: Y)
    requires rows != []
    ensures PairCountSum(rows, ks, y)
         == (if rows[0].1 == y then Count(ks, rows[0].0) else 0) + PairCountSum(rows[1..], ks, y)
  {
    if ks != [] {
      PairCountSumSplit(rows, ks[1..], y);
    }
  }

  lemma {:induction false} PairCountSumOfEmpty<X, Y>(ks: seq<X>, y: Y)
    ensures PairCountSum([], ks, y) == 0
  {
    if ks != [] {
      PairCountSumOfEmpty(ks[1..], y);
    }
  }

  /** For a fixed y, the counts of the pairs (x, y) over all x add up to the count of y. */
  lemma {:induction false} PairCountsCover<X, Y>(xs: seq<X>, ys: seq<Y>, ks: seq<X>, y: Y)
    requires |xs| == |ys|
    requires NoDup(ks)
    requires forall v :: v in xs ==> v in ks
    ensures PairCountSum(Zip(xs, ys), ks, y) == Count(ys, y)
  {
    if xs == [] {
      PairCountSumOfEmpty(ks, y);
    } else {
      var rows := Zip(xs, ys);
      assert rows[1..] == Zip(xs[1..], ys[1..]);
      PairCountSumSplit(rows, ks, y);
      assert xs[0] in xs;
      CountOfUnique(ks, xs[0]);
      forall v | v in xs[1..] ensures v in ks {
        assert v in xs;
      }
      PairCountsCover(xs[1..], ys[1..], ks, y);
    }
  }

  /** One term of `CondMassSum`: the conditional mass of (k, y), 0 when the pair is unobserved. */
  lemma CondMassTerm<X(!new), Y(!new)>(xs: seq<X>, ys: seq<Y>, m: map<(X, Y), real>, k: X, y: Y)
    requires |xs| == |ys|
    requires y in ys
    requires m == CondProba(xs, ys)
    ensures (if (k, y) in m then m[(k, y)] else 0.0) == Count(Zip(xs, ys), (k, y)) as real / Count(ys, y) as real
  {
    var c := Count(Zip(xs, ys), (k, y));
    if (k, y) !in m {
      assert (k, y) !in Zip(xs, ys);
      assert c == 0;
      ZeroRatio(Count(ys, y) as real);
    } else {
      assert m[(k, y)] == Frac(c, Count(ys, y));
    }
  }

  lemma ZeroRatio(n: real)
    requires n > 0.0
    ensures 0.0 / n == 0.0
  {
  }

  lemma {:induction false} CondMassSumOfCounts<X(!new), Y(!new)>(xs: seq<X>, ys: seq<Y>, ks: seq<X>, y: Y)
    requires |xs| == |ys|
    requires y in ys
    ensures CondMassSum(CondProba(xs, ys), ks, y)
         == PairCountSum(Zip(xs, ys), ks, y) as real / Count(ys, y) as real
  {
    var cy := Count(ys, y) as real;
    if ks == [] {
      ZeroRatio(cy);
      assert CondMassSum(CondProba(xs, ys), ks, y) == 0.0;
      assert PairCountSum(Zip(xs, ys), ks, y) as real / cy == 0.0;
    } else {
      var m := CondProba(xs, ys);
      var rows := Zip(xs, ys);
      var c := Count(rows, (ks[0], y));
      var rest := PairCountSum(rows, ks[1..], y);
      CondMassSumOfCounts(xs, ys, ks[1..], y);
      CondMassTerm(xs, ys, m, ks[0], y);
      RatioSumStep(CondMassSum(m, ks, y), CondMassSum(m, ks[1..], y), c as real, rest as real,
                   PairCountSum(rows, ks, y) as real, cy);
    }
  }

  /**
   * For every observed class value y, the conditional probabilities over all
   * values x sum to 1: the masses of each conditional distribution sum to 1.
   */
  lemma {:induction false} CondProbaSumsToOne<X(!new), Y(!new)>(xs: seq<X>, ys: seq<Y>, ks: seq<X>, y: Y)
    requires |xs| == |ys|
    requires NoDup(ks)
    requires forall v :: v in xs ==> v in ks
    requires y in ys
    ensures CondMassSum(CondProba(xs, ys), ks, y) == 1.0
  {
    CondMassSumOfCounts(xs, ys, ks, y);
    PairCountsCover(xs, ys, ks, y);
    SelfRatio(Count(ys, y) as real);
  }
}
