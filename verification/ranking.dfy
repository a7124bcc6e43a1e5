/** `ORDER BY key DESC LIMIT n`: an insertion sort on a real-valued key and
    the prefix of the sorted sequence. */
module Ranking {

  predicate SortedDesc<T>(s: seq<T>, key: T -> real)
  {
    forall i, j :: 0 <= i < j < |s| ==> key(s[i]) >= key(s[j])
  }

  /** No element of `s` has a key above `b`. */
  ghost predicate AtMost<T>(s: seq<T>, key: T -> real, b: real)
  {
    forall y :: y in s ==> key(y) <= b
  }

  lemma ConsSorted<T>(a: T, s: seq<T>, key: T -> real)
    requires SortedDesc(s, key) && AtMost(s, key, key(a))
    ensures SortedDesc([a] + s, key)
  {
    var r := [a] + s;
    forall i, j | 0 <= i < j < |r|
      ensures key(r[i]) >= key(r[j])
    {
      assert r[j] == s[j - 1];
      if i > 0 {
        assert r[i] == s[i - 1];
      } else {
        assert s[j - 1] in s;
      }
    }
  }

  lemma SortedHeadBounds<T>(s: seq<T>, key: T -> real)
    requires SortedDesc(s, key) && s != []
    ensures AtMost(s[1..], key, key(s[0]))
  {
    forall y | y in s[1..]
      ensures key(y) <= key(s[0])
    {
      var k :| 0 <= k < |s[1..]| && s[1..][k] == y;
      assert s[k + 1] == y;
    }
  }

  function Insert<T>(x: T, s: seq<T>, key: T -> real): (r: seq<T>)
    requires SortedDesc(s, key)
    ensures SortedDesc(r, key)
    ensures multiset(r) == multiset(s) + multiset{x}
    ensures forall y :: y in r ==> y == x || y in s
  {
    if s == [] then [x]
    else if key(x) >= key(s[0]) then
      SortedHeadBounds(s, key);
      ConsSorted(x, s, key);
      [x] + s
    else
      assert SortedDesc(s[1..], key);
      var rest := Insert(x, s[1..], key);
      SortedHeadBounds(s, key);
      assert AtMost(rest, key, key(s[0]));
      ConsSorted(s[0], rest, key);
      assert s == [s[0]] + s[1..];
      [s[0]] + rest
  }

  /** The elements of `s` ordered by descending key. */
  function Sort<T>(s: seq<T>, key: T -> real): (r: seq<T>)
    ensures SortedDesc(r, key)
    ensures multiset(r) == multiset(s)
  {
    if s == [] then []
    else
      assert s == [s[0]] + s[1..];
      Insert(s[0], Sort(s[1..], key), key)
  }

  function Min(a: int, b: int): int
  {
    if a <= b then a else b
  }

  /** Every element after position `k` of a sorted sequence is ranked no
      higher than every element before it. */
  lemma SplitRanked<T>(sorted: seq<T>, key: T -> real, k: int)
    requires SortedDesc(sorted, key) && 0 <= k <= |sorted|
    ensures forall x, y :: x in sorted[k..] && y in sorted[..k] ==> key(x) <= key(y)
  {
    forall x, y | x in sorted[k..] && y in sorted[..k]
      ensures key(x) <= key(y)
    {
      var i :| 0 <= i < |sorted[k..]| && sorted[k..][i] == x;
      var j :| 0 <= j < k && sorted[..k][j] == y;
      assert sorted[k + i] == x && sorted[j] == y;
    }
  }

  /** The first `n` elements by descending key. Whatever is left out has a
      key no larger than any key kept. */
  function TopN<T>(s: seq<T>, key: T -> real, n: nat): (r: seq<T>)
    ensures |r| == Min(n, |s|)
    ensures SortedDesc(r, key)
    ensures multiset(r) <= multiset(s)
    ensures forall x :: x in r ==> x in s
    ensures forall x, y :: x in multiset(s) - multiset(r) && y in r ==> key(x) <= key(y)
    ensures |s| <= n ==> multiset(r) == multiset(s)
  {
    var sorted := Sort(s, key);
    var k := Min(n, |s|);
    PrefixOfSorted(s, sorted, key, k);
    sorted[..k]
  }

  /** The facts about a prefix of the sorted sequence that `TopN` promises. */
  lemma PrefixOfSorted<T>(s: seq<T>, sorted: seq<T>, key: T -> real, k: int)
    requires SortedDesc(sorted, key) && multiset(sorted) == multiset(s)
    requires 0 <= k <= |s|
    ensures |sorted| == |s|
    ensures SortedDesc(sorted[..k], key)
    ensures multiset(sorted[..k]) <= multiset(s)
    ensures forall x :: x in sorted[..k] ==> x in s
    ensures forall x, y :: x in multiset(s) - multiset(sorted[..k]) && y in sorted[..k] ==> key(x) <= key(y)
    ensures k == |s| ==> multiset(sorted[..k]) == multiset(s)
  {
    assert |sorted| == |multiset(sorted)| == |s|;
    SplitRanked(sorted, key, k);
    assert sorted == sorted[..k] + sorted[k..];
    assert multiset(s) - multiset(sorted[..k]) == multiset(sorted[k..]);
    assert forall x :: x in sorted[..k] ==> x in multiset(s);
    assert k == |s| ==> sorted[..k] == sorted;
  }

  /** No value occurs twice in `s`. */
  predicate Distinct<T(==)>(s: seq<T>)
  {
    forall i, j :: 0 <= i < j < |s| ==> s[i] != s[j]
  }

  /** In a sequence without repetitions every value occurs at most once. */
  lemma {:induction false} DistinctAtMostOnce<T>(s: seq<T>, x: T)
    requires Distinct(s)
    ensures multiset(s)[x] <= 1
  {
    if s != [] {
      var init := s[..|s| - 1];
      var last := s[|s| - 1];
      assert s == init + [last];
      assert forall k :: 0 <= k < |init| ==> init[k] == s[k];
      DistinctAtMostOnce(init, x);
      assert last !in init;
    }
  }

  /** Taking a sub-multiset, as `TopN` and the grouping filters do, keeps a
      sequence free of repetitions. */
  lemma SubMultisetDistinct<T>(a: seq<T>, b: seq<T>)
    requires multiset(a) <= multiset(b)
    requires Distinct(b)
    ensures Distinct(a)
  {
    forall i, j | 0 <= i < j < |a|
      ensures a[i] != a[j]
    {
      assert a == a[..j] + [a[j]] + a[j + 1..];
      assert a[i] in multiset(a[..j]);
      assert multiset(a)[a[j]] >= multiset(a[..j])[a[j]] + 1;
      DistinctAtMostOnce(b, a[j]);
    }
  }

  /** An element of `s` that `TopN` did not keep ranks no higher than any
      element it kept. */
  lemma NotKeptRanksLower<T>(s: seq<T>, key: T -> real, n: nat)
    ensures forall x, y :: x in s && x !in TopN(s, key, n) && y in TopN(s, key, n) ==> key(x) <= key(y)
  {
    var r := TopN(s, key, n);
    forall x, y | x in s && x !in r && y in r
      ensures key(x) <= key(y)
    {
      assert x in multiset(s) - multiset(r);
    }
  }
}
