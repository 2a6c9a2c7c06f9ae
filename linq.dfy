/**
 * The few LINQ operators the chart queries are built from, on sequences:
 * Count, the key order of GroupBy and the stable OrderBy; SumOf states
 * column totals.
 */
module Linq {

  predicate NoDuplicates<K(==)>(s: seq<K>)
  {
    forall i, j :: 0 <= i < j < |s| ==> s[i] != s[j]
  }

  /** `f` takes distinct values on the elements of `s`. */
  predicate DistinctBy<T, K(==)>(s: seq<T>, f: T -> K)
  {
    forall i, j :: 0 <= i < j < |s| ==> f(s[i]) != f(s[j])
  }

  /** `s` is ordered by `key`, non-decreasing. */
  predicate SortedBy<T>(s: seq<T>, key: T -> int)
  {
    forall i, j :: 0 <= i < j < |s| ==> key(s[i]) <= key(s[j])
  }

  // ---------------------------------------------------------------------------
  // Count and the groups of GroupBy
  // ---------------------------------------------------------------------------

  /** Number of elements of `ks` equal to `k`. */
  function Count<K(==)>(ks: seq<K>, k: K): (n: nat)
    ensures n <= |ks|
    ensures n == 0 <==> k !in ks
    ensures n == multiset(ks)[k]
  {
    if ks == [] then 0
    else
      assert ks == ks[..|ks| - 1] + [ks[|ks| - 1]];
      Count(ks[..|ks| - 1], k) + (if ks[|ks| - 1] == k then 1 else 0)
  }

  /** The keys of `ks` in order of first appearance: the group order of GroupBy. */
  function Distinct<K(==,!new)>(ks: seq<K>): (d: seq<K>)
    ensures NoDuplicates(d)
    ensures forall k :: k in d <==> k in ks
  {
    if ks == [] then []
    else
      assert ks == ks[..|ks| - 1] + [ks[|ks| - 1]];
      var d := Distinct(ks[..|ks| - 1]);
      if ks[|ks| - 1] in d then d else d + [ks[|ks| - 1]]
  }

  /** The group sizes of the keys `d` in `ks`, added up. */
  function SumCounts<K(==)>(d: seq<K>, ks: seq<K>): nat
  {
    if d == [] then 0 else Count(ks, d[0]) + SumCounts(d[1..], ks)
  }

  lemma {:induction false} SumCountsOfNothing<K>(d: seq<K>)
    ensures SumCounts(d, []) == 0
  {
    if d != [] {
      SumCountsOfNothing(d[1..]);
    }
  }

  /** Appending one element `x` adds one to exactly the group of `x`. */
  lemma {:induction false} SumCountsSnoc<K>(d: seq<K>, ks: seq<K>, x: K)
    requires NoDuplicates(d)
    ensures SumCounts(d, ks + [x]) == SumCounts(d, ks) + (if x in d then 1 else 0)
  {
    assert (ks + [x])[..|ks|] == ks;
    if d != [] {
      assert NoDuplicates(d[1..]) by {
        forall i, j | 0 <= i < j < |d[1..]| ensures d[1..][i] != d[1..][j] {
          assert d[1..][i] == d[i + 1] && d[1..][j] == d[j + 1];
        }
      }
      SumCountsSnoc(d[1..], ks, x);
      assert x in d <==> x == d[0] || x in d[1..] by {
        assert d == [d[0]] + d[1..];
      }
      forall j | 0 <= j < |d[1..]| ensures d[1..][j] != d[0] {
        assert d[1..][j] == d[j + 1];
      }
    }
  }

  /**
   * Grouping partitions: when every element of `ks` has its key in the
   * duplicate-free `d`, the group sizes add up to the number of elements.
   */
  lemma {:induction false} CountsPartition<K>(d: seq<K>, ks: seq<K>)
    requires NoDuplicates(d)
    requires forall k :: k in ks ==> k in d
    ensures SumCounts(d, ks) == |ks|
  {
    if ks == [] {
      SumCountsOfNothing(d);
    } else {
      var init, x := ks[..|ks| - 1], ks[|ks| - 1];
      assert ks == init + [x];
      CountsPartition(d, init);
      SumCountsSnoc(d, init, x);
    }
  }

  // ---------------------------------------------------------------------------
  // Sum
  // ---------------------------------------------------------------------------

  function SumOf<T>(s: seq<T>, f: T -> int): int
  {
    if s == [] then 0 else f(s[0]) + SumOf(s[1..], f)
  }

  // ---------------------------------------------------------------------------
  // OrderBy: a stable sort. An element is inserted in front of the first
  // element whose key is not smaller, so that elements with equal keys keep
  // their input order.
  // ---------------------------------------------------------------------------

  function InsertBy<T>(x: T, s: seq<T>, key: T -> int): (r: seq<T>)
    ensures |r| == |s| + 1
  {
    if s == [] || key(x) <= key(s[0]) then [x] + s
    else [s[0]] + InsertBy(x, s[1..], key)
  }

  /** Ordered by `key` and a permutation (OrderBySorts); stable (OrderByHeadIsFirstLeast). */
  function OrderBy<T>(s: seq<T>, key: T -> int): (r: seq<T>)
    ensures |r| == |s|
  {
    if s == [] then [] else InsertBy(s[0], OrderBy(s[1..], key), key)
  }

  lemma {:induction false} SortedTail<T>(s: seq<T>, key: T -> int)
    requires SortedBy(s, key) && s != []
    ensures SortedBy(s[1..], key)
  {
    forall i, j | 0 <= i < j < |s[1..]| ensures key(s[1..][i]) <= key(s[1..][j]) {
      assert s[1..][i] == s[i + 1] && s[1..][j] == s[j + 1];
    }
  }

  /** Insertion adds exactly `x`. */
  lemma {:induction false} InsertByPermutes<T>(x: T, s: seq<T>, key: T -> int)
    ensures multiset(InsertBy(x, s, key)) == multiset(s) + multiset{x}
  {
    if s != [] && key(x) > key(s[0]) {
      assert s == [s[0]] + s[1..];
      InsertByPermutes(x, s[1..], key);
    }
  }

  /** The head of an ordered sequence has the least key. */
  lemma SortedHeadLeast<T>(s: seq<T>, key: T -> int)
    requires SortedBy(s, key) && s != []
    ensures forall y :: y in s ==> key(s[0]) <= key(y)
  {
    forall y | y in s ensures key(s[0]) <= key(y) {
      var k :| 0 <= k < |s| && s[k] == y;
    }
  }

  /** An element with a key no larger than any key of an ordered sequence can go in front. */
  lemma ConsSorted<T>(h: T, t: seq<T>, key: T -> int)
    requires SortedBy(t, key)
    requires forall y :: y in t ==> key(h) <= key(y)
    ensures SortedBy([h] + t, key)
  {
    var r := [h] + t;
    forall i, j | 0 <= i < j < |r| ensures key(r[i]) <= key(r[j]) {
      assert r[j] == t[j - 1];
      if i > 0 {
        assert r[i] == t[i - 1];
      } else {
        assert t[j - 1] in t;
      }
    }
  }

  /** Inserting into an ordered sequence keeps it ordered. */
  lemma {:induction false} InsertBySorts<T>(x: T, s: seq<T>, key: T -> int)
    requires SortedBy(s, key)
    ensures SortedBy(InsertBy(x, s, key), key)
  {
    if s == [] || key(x) <= key(s[0]) {
      if s != [] {
        SortedHeadLeast(s, key);
      }
      ConsSorted(x, s, key);
    } else {
      SortedTail(s, key);
      InsertBySorts(x, s[1..], key);
      InsertByPermutes(x, s[1..], key);
      SortedHeadLeast(s, key);
      var rest := InsertBy(x, s[1..], key);
      forall y | y in rest ensures key(s[0]) <= key(y) {
        assert y in multiset(rest);
        if y != x {
          assert y in multiset(s[1..]);
          assert y in s;
        }
      }
      ConsSorted(s[0], rest, key);
    }
  }

  /** OrderBy sorts by `key` and is a permutation of its input. */
  lemma {:induction false} OrderBySorts<T>(s: seq<T>, key: T -> int)
    ensures SortedBy(OrderBy(s, key), key)
    ensures multiset(OrderBy(s, key)) == multiset(s)
  {
    if s != [] {
      assert s == [s[0]] + s[1..];
      OrderBySorts(s[1..], key);
      InsertBySorts(s[0], OrderBy(s[1..], key), key);
      InsertByPermutes(s[0], OrderBy(s[1..], key), key);
    }
  }

  lemma {:induction false} SumOfInsertBy<T>(x: T, s: seq<T>, key: T -> int, f: T -> int)
    ensures SumOf(InsertBy(x, s, key), f) == f(x) + SumOf(s, f)
  {
    if s == [] || key(x) <= key(s[0]) {
      assert ([x] + s)[1..] == s;
    } else {
      SumOfInsertBy(x, s[1..], key, f);
      assert ([s[0]] + InsertBy(x, s[1..], key))[1..] == InsertBy(x, s[1..], key);
    }
  }

  /**
   * Stability at the head: the first element of `OrderBy` is the first
   * element of the input with a least key.
   */
  lemma {:induction false} OrderByHeadIsFirstLeast<T>(s: seq<T>, key: T -> int, i: nat)
    requires i < |s|
    requires forall j :: 0 <= j < |s| ==> key(s[i]) <= key(s[j])
    requires forall j :: 0 <= j < i ==> key(s[j]) > key(s[i])
    ensures OrderBy(s, key)[0] == s[i]
  {
    OrderBySorts(s, key);
    var t := OrderBy(s[1..], key);
    OrderBySorts(s[1..], key);
    if i == 0 {
      if t != [] {
        assert t[0] in multiset(s[1..]);
        var k :| 0 <= k < |s[1..]| && s[1..][k] == t[0];
        assert s[k + 1] == t[0];
      }
    } else {
      forall j | 0 <= j < |s[1..]| ensures key(s[1..][i - 1]) <= key(s[1..][j]) {
        assert s[1..][j] == s[j + 1];
      }
      forall j | 0 <= j < i - 1 ensures key(s[1..][j]) > key(s[1..][i - 1]) {
        assert s[1..][j] == s[j + 1];
      }
      OrderByHeadIsFirstLeast(s[1..], key, i - 1);
      assert t[0] == s[i];
    }
  }

  /** Reordering does not change a sum. */
  lemma {:induction false} SumOfOrderBy<T>(s: seq<T>, key: T -> int, f: T -> int)
    ensures SumOf(OrderBy(s, key), f) == SumOf(s, f)
  {
    if s != [] {
      SumOfOrderBy(s[1..], key, f);
      SumOfInsertBy(s[0], OrderBy(s[1..], key), key, f);
    }
  }

  /** The tail of a sequence of distinct values is distinct, and none of it shares the head's value. */
  lemma DistinctByTail<T, K>(s: seq<T>, f: T -> K)
    requires DistinctBy(s, f) && s != []
    ensures DistinctBy(s[1..], f)
    ensures forall y :: y in s[1..] ==> f(y) != f(s[0])
  {
    forall i, j | 0 <= i < j < |s[1..]| ensures f(s[1..][i]) != f(s[1..][j]) {
      assert s[1..][i] == s[i + 1] && s[1..][j] == s[j + 1];
    }
    forall y | y in s[1..] ensures f(y) != f(s[0]) {
      var k :| 0 <= k < |s[1..]| && s[1..][k] == y;
      assert s[k + 1] == y;
    }
  }

  /** A value distinct from every value of a distinct sequence can go in front. */
  lemma ConsDistinct<T, K>(h: T, t: seq<T>, f: T -> K)
    requires DistinctBy(t, f)
    requires forall y :: y in t ==> f(y) != f(h)
    ensures DistinctBy([h] + t, f)
  {
    var r := [h] + t;
    forall i, j | 0 <= i < j < |r| ensures f(r[i]) != f(r[j]) {
      assert r[j] == t[j - 1];
      if i > 0 {
        assert r[i] == t[i - 1];
      } else {
        assert t[j - 1] in t;
      }
    }
  }

  lemma {:induction false} InsertByKeepsDistinct<T, K>(x: T, s: seq<T>, key: T -> int, f: T -> K)
    requires DistinctBy(s, f)
    requires forall y :: y in s ==> f(y) != f(x)
    ensures DistinctBy(InsertBy(x, s, key), f)
  {
    if s == [] || key(x) <= key(s[0]) {
      ConsDistinct(x, s, f);
    } else {
      DistinctByTail(s, f);
      assert forall y :: y in s[1..] ==> y in s;
      InsertByKeepsDistinct(x, s[1..], key, f);
      InsertByPermutes(x, s[1..], key);
      var rest := InsertBy(x, s[1..], key);
      forall y | y in rest ensures f(y) != f(s[0]) {
        assert y in multiset(rest);
        if y != x {
          assert y in multiset(s[1..]);
        } else {
          assert s[0] in s;
        }
      }
      ConsDistinct(s[0], rest, f);
    }
  }

  /** Reordering keeps distinct values distinct. */
  lemma {:induction false} OrderByKeepsDistinct<T, K>(s: seq<T>, key: T -> int, f: T -> K)
    requires DistinctBy(s, f)
    ensures DistinctBy(OrderBy(s, key), f)
  {
    if s != [] {
      assert DistinctBy(s[1..], f) by {
        forall i, j | 0 <= i < j < |s[1..]| ensures f(s[1..][i]) != f(s[1..][j]) {
          assert s[1..][i] == s[i + 1] && s[1..][j] == s[j + 1];
        }
      }
      OrderByKeepsDistinct(s[1..], key, f);
      var sorted := OrderBy(s[1..], key);
      OrderBySorts(s[1..], key);
      forall y | y in sorted ensures f(y) != f(s[0]) {
        assert y in multiset(sorted);
        var k :| 0 <= k < |s[1..]| && s[1..][k] == y;
        assert s[k + 1] == y;
      }
      InsertByKeepsDistinct(s[0], sorted, key, f);
    }
  }

  /** In a duplicate-free sequence every value occurs at most once. */
  lemma {:induction false} CountAtMostOne<K>(d: seq<K>, k: K)
    requires NoDuplicates(d)
    ensures Count(d, k) <= 1
  {
    if d != [] {
      var init := d[..|d| - 1];
      assert NoDuplicates(init) by {
        forall i, j | 0 <= i < j < |init| ensures init[i] != init[j] {
          assert init[i] == d[i] && init[j] == d[j];
        }
      }
      CountAtMostOne(init, k);
      if d[|d| - 1] == k {
        forall i | 0 <= i < |init| ensures init[i] != k {
          assert init[i] == d[i];
        }
      }
    }
  }

  /** Group sizes of at most one each add up to at most the number of keys. */
  lemma {:induction false} SumCountsAtMostKeys<K>(keys: seq<K>, d: seq<K>)
    requires NoDuplicates(d)
    ensures SumCounts(keys, d) <= |keys|
  {
    if keys != [] {
      CountAtMostOne(d, keys[0]);
      SumCountsAtMostKeys(keys[1..], d);
    }
  }

  /** A duplicate-free sequence drawn from the values of `universe` is no longer than `universe`. */
  lemma NoDuplicatesBound<K>(d: seq<K>, universe: seq<K>)
    requires NoDuplicates(d) && NoDuplicates(universe)
    requires forall k :: k in d ==> k in universe
    ensures |d| <= |universe|
  {
    CountsPartition(universe, d);
    SumCountsAtMostKeys(universe, d);
  }
}
