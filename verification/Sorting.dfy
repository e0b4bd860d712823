/** A stable sort by an integer key: the contract of the standard library's `sort_by_key`. */
module Sorting {
  import opened Base

  ghost predicate SortedBy<T(!new)>(s: seq<T>, key: T -> int) {
    forall i, j | 0 <= i < j < |s| :: key(s[i]) <= key(s[j])
  }

  /** Put `x` behind every element that is not greater. */
  function InsertByKey<T>(s: seq<T>, x: T, key: T -> int): seq<T> {
    if s != [] && key(s[|s| - 1]) > key(x) then InsertByKey(s[..|s| - 1], x, key) + [s[|s| - 1]] else s + [x]
  }

  function SortByKey<T>(s: seq<T>, key: T -> int): seq<T> {
    if s == [] then [] else InsertByKey(SortByKey(s[..|s| - 1], key), s[|s| - 1], key)
  }

  lemma {:induction false} InsertKeepsElements<T>(s: seq<T>, x: T, key: T -> int)
    ensures multiset(InsertByKey(s, x, key)) == multiset(s) + multiset{x}
  {
    if s != [] && key(s[|s| - 1]) > key(x) {
      InsertKeepsElements(s[..|s| - 1], x, key);
      assert s == s[..|s| - 1] + [s[|s| - 1]];
    }
  }

  lemma {:induction false} InsertKeepsSorted<T(!new)>(s: seq<T>, x: T, key: T -> int)
    requires SortedBy(s, key)
    ensures SortedBy(InsertByKey(s, x, key), key)
  {
    if s != [] && key(s[|s| - 1]) > key(x) {
      var init, last := s[..|s| - 1], s[|s| - 1];
      InsertKeepsSorted(init, x, key);
      InsertKeepsElements(init, x, key);
      var r := InsertByKey(init, x, key);
      forall i | 0 <= i < |r| ensures key(r[i]) <= key(last) {
        assert r[i] in multiset(r);
        assert r[i] in init || r[i] == x;
      }
    }
  }

  lemma {:induction false} SortByKeySorts<T(!new)>(s: seq<T>, key: T -> int)
    ensures SortedBy(SortByKey(s, key), key)
    ensures multiset(SortByKey(s, key)) == multiset(s)
  {
    if s != [] {
      var init, last := s[..|s| - 1], s[|s| - 1];
      SortByKeySorts(init, key);
      InsertKeepsSorted(SortByKey(init, key), last, key);
      InsertKeepsElements(SortByKey(init, key), last, key);
      assert s == init + [last];
    }
  }

  function HasKey<T(!new)>(key: T -> int, k: int): T -> bool {
    x => key(x) == k
  }

  /** The elements with one key. */
  function WithKey<T(!new)>(s: seq<T>, key: T -> int, k: int): seq<T> {
    Filter(s, HasKey(key, k))
  }

  lemma {:induction false} InsertGoesBehind<T(!new)>(s: seq<T>, x: T, key: T -> int, k: int)
    ensures WithKey(InsertByKey(s, x, key), key, k) == WithKey(s + [x], key, k)
  {
    var has := HasKey(key, k);
    FilterAppend(s, x, has);
    if s != [] && key(s[|s| - 1]) > key(x) {
      var init, last := s[..|s| - 1], s[|s| - 1];
      InsertGoesBehind(init, x, key, k);
      FilterAppend(init, x, has);
      FilterAppend(init, last, has);
      FilterAppend(InsertByKey(init, x, key), last, has);
      assert s == init + [last];
    }
  }

  /** The sort is stable: elements with equal keys keep their order. */
  lemma {:induction false} SortIsStable<T(!new)>(s: seq<T>, key: T -> int, k: int)
    ensures WithKey(SortByKey(s, key), key, k) == WithKey(s, key, k)
  {
    if s != [] {
      var init, last, has := s[..|s| - 1], s[|s| - 1], HasKey(key, k);
      SortIsStable(init, key, k);
      InsertGoesBehind(SortByKey(init, key), last, key, k);
      FilterAppend(SortByKey(init, key), last, has);
      FilterAppend(init, last, has);
      assert s == init + [last];
    }
  }

  /** Sorting what is sorted changes nothing. */
  lemma {:induction false} SortedStays<T(!new)>(s: seq<T>, key: T -> int)
    requires SortedBy(s, key)
    ensures SortByKey(s, key) == s
  {
    if s != [] {
      SortedStays(s[..|s| - 1], key);
    }
  }

  ghost predicate DistinctKeys<T(!new)>(s: seq<T>, key: T -> int) {
    forall i, j | 0 <= i < j < |s| :: key(s[i]) != key(s[j])
  }

  lemma {:induction false} InsertKeepsDistinct<T(!new)>(s: seq<T>, x: T, key: T -> int)
    requires DistinctKeys(s, key) && forall y | y in s :: key(y) != key(x)
    ensures DistinctKeys(InsertByKey(s, x, key), key)
  {
    if s != [] && key(s[|s| - 1]) > key(x) {
      var init, last := s[..|s| - 1], s[|s| - 1];
      InsertKeepsDistinct(init, x, key);
      InsertKeepsElements(init, x, key);
      var r := InsertByKey(init, x, key);
      forall i | 0 <= i < |r| ensures key(r[i]) != key(last) {
        assert r[i] in multiset(r);
        assert r[i] in init || r[i] == x;
      }
    }
  }

  lemma {:induction false} SortKeepsDistinct<T(!new)>(s: seq<T>, key: T -> int)
    requires DistinctKeys(s, key)
    ensures DistinctKeys(SortByKey(s, key), key)
  {
    if s != [] {
      var init, last := s[..|s| - 1], s[|s| - 1];
      SortKeepsDistinct(init, key);
      SortByKeySorts(init, key);
      forall y | y in SortByKey(init, key) ensures key(y) != key(last) {
        assert y in multiset(init);
      }
      InsertKeepsDistinct(SortByKey(init, key), last, key);
    }
  }
}
