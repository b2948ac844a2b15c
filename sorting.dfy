/**
 * Python's built-in `sorted(s, key=key, reverse=True)`: a stable sort into
 * non-increasing key order, in which elements with equal keys keep their
 * original relative order. It is written here as an insertion sort.
 */
module Sorting {

  predicate NonIncreasing<T>(s: seq<T>, key: T -> real) {
    forall i, j :: 0 <= i < j < |s| ==> key(s[i]) >= key(s[j])
  }

  /** Elements with equal keys appear in increasing `tag` order. */
  predicate TiesInTagOrder<T>(s: seq<T>, key: T -> real, tag: T -> int) {
    forall i, j :: 0 <= i < j < |s| && key(s[i]) == key(s[j]) ==> tag(s[i]) < tag(s[j])
  }

  /** All tags are different. */
  predicate DistinctTags<T>(s: seq<T>, tag: T -> int) {
    forall i, j :: 0 <= i < j < |s| ==> tag(s[i]) != tag(s[j])
  }

  /** Puts `x` in front of the first element whose key is not larger than its own. */
  function Insert<T>(x: T, s: seq<T>, key: T -> real): (r: seq<T>)
    ensures multiset(r) == multiset(s) + multiset{x}
  {
    if s == [] || key(s[0]) <= key(x) then [x] + s
    else
      assert s == [s[0]] + s[1..];
      [s[0]] + Insert(x, s[1..], key)
  }

  lemma InInsert<T>(x: T, s: seq<T>, key: T -> real, y: T)
    ensures y in Insert(x, s, key) <==> y == x || y in s
  {
    var r := Insert(x, s, key);
    assert y in r <==> y in multiset(r);
    assert y in s <==> y in multiset(s);
  }

  /** Some index of `s` after the first holds `y`. */
  lemma IndexInTail<T>(s: seq<T>, y: T) returns (k: nat)
    requires s != [] && y in s[1..]
    ensures 1 <= k < |s| && s[k] == y
  {
    var t := s[1..];
    var i :| 0 <= i < |t| && t[i] == y;
    k := i + 1;
  }

  lemma {:induction false} InsertKeepsOrder<T>(x: T, s: seq<T>, key: T -> real)
    requires NonIncreasing(s, key)
    ensures NonIncreasing(Insert(x, s, key), key)
  {
    if s == [] || key(s[0]) <= key(x) {
      var r := [x] + s;
      forall i, j | 0 <= i < j < |r| ensures key(r[i]) >= key(r[j]) {
        if i == 0 {
          assert r[j] == s[j - 1];
        } else {
          assert r[i] == s[i - 1] && r[j] == s[j - 1];
        }
      }
    } else {
      var rest := Insert(x, s[1..], key);
      InsertKeepsOrder(x, s[1..], key);
      var r := [s[0]] + rest;
      forall i, j | 0 <= i < j < |r| ensures key(r[i]) >= key(r[j]) {
        if i == 0 {
          var y := r[j];
          assert y == rest[j - 1];
          InInsert(x, s[1..], key, y);
          if y != x {
            var k := IndexInTail(s, y);
          }
        } else {
          assert r[i] == rest[i - 1] && r[j] == rest[j - 1];
        }
      }
    }
  }

  function SortDesc<T>(s: seq<T>, key: T -> real): (r: seq<T>)
    ensures multiset(r) == multiset(s)
    ensures NonIncreasing(r, key)
  {
    if s == [] then []
    else
      assert s == [s[0]] + s[1..];
      InsertKeepsOrder(s[0], SortDesc(s[1..], key), key);
      Insert(s[0], SortDesc(s[1..], key), key)
  }

  lemma InSortDesc<T>(s: seq<T>, key: T -> real, y: T)
    ensures y in SortDesc(s, key) <==> y in s
  {
    var r := SortDesc(s, key);
    assert y in r <==> y in multiset(r);
    assert y in s <==> y in multiset(s);
  }

  lemma {:induction false} InsertKeepsTiesInTagOrder<T>(x: T, s: seq<T>, key: T -> real, tag: T -> int)
    requires NonIncreasing(s, key)
    requires TiesInTagOrder(s, key, tag)
    requires forall y :: y in s ==> tag(x) < tag(y)
    ensures TiesInTagOrder(Insert(x, s, key), key, tag)
  {
    if s == [] || key(s[0]) <= key(x) {
      var r := [x] + s;
      forall i, j | 0 <= i < j < |r| && key(r[i]) == key(r[j]) ensures tag(r[i]) < tag(r[j]) {
        if i == 0 {
          assert r[j] == s[j - 1];
        } else {
          assert r[i] == s[i - 1] && r[j] == s[j - 1];
        }
      }
    } else {
      var rest := Insert(x, s[1..], key);
      InsertKeepsTiesInTagOrder(x, s[1..], key, tag);
      var r := [s[0]] + rest;
      forall i, j | 0 <= i < j < |r| && key(r[i]) == key(r[j]) ensures tag(r[i]) < tag(r[j]) {
        if i == 0 {
          var y := r[j];
          assert y == rest[j - 1];
          InInsert(x, s[1..], key, y);
          if y != x {
            var k := IndexInTail(s, y);
          }
        } else {
          assert r[i] == rest[i - 1] && r[j] == rest[j - 1];
        }
      }
    }
  }

  /**
   * Stability: when the input is in increasing `tag` order (the original
   * order), elements of equal key leave the sort in that same order.
   */
  lemma {:induction false} SortDescIsStable<T>(s: seq<T>, key: T -> real, tag: T -> int)
    requires forall i, j :: 0 <= i < j < |s| ==> tag(s[i]) < tag(s[j])
    ensures TiesInTagOrder(SortDesc(s, key), key, tag)
  {
    if s != [] {
      SortDescIsStable(s[1..], key, tag);
      forall y | y in SortDesc(s[1..], key) ensures tag(s[0]) < tag(y) {
        InSortDesc(s[1..], key, y);
        var k := IndexInTail(s, y);
      }
      InsertKeepsTiesInTagOrder(s[0], SortDesc(s[1..], key), key, tag);
    }
  }

  lemma {:induction false} InsertKeepsTagsDistinct<T>(x: T, s: seq<T>, key: T -> real, tag: T -> int)
    requires DistinctTags(s, tag)
    requires forall y :: y in s ==> tag(x) != tag(y)
    ensures DistinctTags(Insert(x, s, key), tag)
  {
    if s == [] || key(s[0]) <= key(x) {
      var r := [x] + s;
      forall i, j | 0 <= i < j < |r| ensures tag(r[i]) != tag(r[j]) {
        if i == 0 {
          assert r[j] == s[j - 1];
        } else {
          assert r[i] == s[i - 1] && r[j] == s[j - 1];
        }
      }
    } else {
      var rest := Insert(x, s[1..], key);
      InsertKeepsTagsDistinct(x, s[1..], key, tag);
      var r := [s[0]] + rest;
      forall i, j | 0 <= i < j < |r| ensures tag(r[i]) != tag(r[j]) {
        if i == 0 {
          var y := r[j];
          assert y == rest[j - 1];
          InInsert(x, s[1..], key, y);
          if y != x {
            var k := IndexInTail(s, y);
          }
        } else {
          assert r[i] == rest[i - 1] && r[j] == rest[j - 1];
        }
      }
    }
  }

  /** Sorting neither duplicates nor merges elements: distinct tags stay distinct. */
  lemma {:induction false} SortDescKeepsTagsDistinct<T>(s: seq<T>, key: T -> real, tag: T -> int)
    requires DistinctTags(s, tag)
    ensures DistinctTags(SortDesc(s, key), tag)
  {
    if s != [] {
      assert DistinctTags(s[1..], tag) by {
        forall i, j | 0 <= i < j < |s[1..]| ensures tag(s[1..][i]) != tag(s[1..][j]) {
          assert s[1..][i] == s[i + 1] && s[1..][j] == s[j + 1];
        }
      }
      SortDescKeepsTagsDistinct(s[1..], key, tag);
      forall y | y in SortDesc(s[1..], key) ensures tag(s[0]) != tag(y) {
        InSortDesc(s[1..], key, y);
        var k := IndexInTail(s, y);
      }
      InsertKeepsTagsDistinct(s[0], SortDesc(s[1..], key), key, tag);
    }
  }
}
