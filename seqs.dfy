/** Whole-table sequence operations shared by the queries and the ranking: removing
    duplicates (a `set(...)` or the distinct values of a `GROUP BY`), sorting rows by a
    numeric column in descending order (`ORDER BY ... DESC`, pandas' `sort_values(...,
    ascending=False)`), and pandas' `head(n)`. */
module Seqs {

  predicate Distinct<T(==)>(xs: seq<T>) {
    forall i, j :: 0 <= i < j < |xs| ==> xs[i] != xs[j]
  }

  /** The values of `xs`, each exactly once (in order of first occurrence). */
  function Dedup<T(==)>(xs: seq<T>): (r: seq<T>)
    ensures Distinct(r)
    ensures forall i :: 0 <= i < |r| ==> r[i] in xs
    ensures forall i :: 0 <= i < |xs| ==> xs[i] in r
    ensures |r| <= |xs|
  {
    if xs == [] then []
    else
      var r := Dedup(xs[..|xs| - 1]);
      var x := xs[|xs| - 1];
      if x in r then r else r + [x]
  }

  /** Deduplication keeps exactly the values of `xs`. */
  lemma DedupSameValues<T>(xs: seq<T>, x: T)
    ensures x in Dedup(xs) <==> x in xs
  {
    if x in xs {
      var i :| 0 <= i < |xs| && xs[i] == x;
    }
  }

  /** `xs` is ordered non-increasingly by `key`. */
  ghost predicate SortedDesc<T>(xs: seq<T>, key: T -> int) {
    forall i, j :: 0 <= i < j < |xs| ==> key(xs[i]) >= key(xs[j])
  }

  /** Places `x` into the sorted `s`, before the first element whose key does not exceed its own. */
  function Insert<T>(x: T, s: seq<T>, key: T -> int): (r: seq<T>)
    requires SortedDesc(s, key)
    ensures SortedDesc(r, key)
    ensures multiset(r) == multiset(s) + multiset{x}
    ensures |r| == |s| + 1
    ensures r[0] == x || (s != [] && r[0] == s[0])
  {
    if s == [] || key(s[0]) <= key(x) then [x] + s
    else
      var t := Insert(x, s[1..], key);
      assert forall j :: 0 <= j < |t| ==> key(t[j]) <= key(t[0]) <= key(s[0]);
      assert multiset(s) == multiset{s[0]} + multiset(s[1..]) by {
        assert s == [s[0]] + s[1..];
      }
      [s[0]] + t
  }

  /** Sorting by `key` in descending order: a sorted permutation of `xs`. */
  function SortDesc<T>(xs: seq<T>, key: T -> int): (r: seq<T>)
    ensures SortedDesc(r, key)
    ensures multiset(r) == multiset(xs)
    ensures |r| == |xs|
  {
    if xs == [] then []
    else
      assert xs == [xs[0]] + xs[1..];
      var r := Insert(xs[0], SortDesc(xs[1..], key), key);
      assert |r| == |multiset(r)|;
      r
  }

  /** The number of rows pandas' `head(n)` keeps out of `len`: the first `n`, or, for a
      negative `n`, all but the last `-n`. */
  function HeadLength(len: nat, n: int): (k: nat)
    ensures k <= len
    ensures 0 <= n <= len ==> k == n
    ensures n > len ==> k == len
    ensures n < 0 ==> k == if len + n > 0 then len + n else 0
  {
    if n >= 0 then (if n < len then n else len)
    else if len + n > 0 then len + n else 0
  }

  /** pandas' `head(n)`: a prefix of `xs`. */
  function Head<T>(xs: seq<T>, n: int): (r: seq<T>)
    ensures |r| == HeadLength(|xs|, n)
    ensures r == xs[..|r|]
  {
    xs[..HeadLength(|xs|, n)]
  }

  /** Taking a prefix of a sorted sequence: every kept element ranks at least as high
      as every dropped one, and the kept elements come from `xs`. */
  lemma PrefixDominates<T>(xs: seq<T>, key: T -> int, k: nat)
    requires SortedDesc(xs, key)
    requires k <= |xs|
    ensures SortedDesc(xs[..k], key)
    ensures forall i, j :: 0 <= i < k <= j < |xs| ==> key(xs[i]) >= key(xs[j])
    ensures multiset(xs[..k]) <= multiset(xs)
  {
    assert xs == xs[..k] + xs[k..];
  }

  /** What a prefix of a sorted sequence leaves out ranks no higher than what it keeps. */
  lemma DroppedRankLower<T>(xs: seq<T>, key: T -> int, k: nat)
    requires SortedDesc(xs, key)
    requires k <= |xs|
    ensures forall x, y :: x in xs[..k] && y in multiset(xs) - multiset(xs[..k]) ==> key(x) >= key(y)
  {
    assert xs == xs[..k] + xs[k..];
    assert multiset(xs) - multiset(xs[..k]) == multiset(xs[k..]);
    forall x, y | x in xs[..k] && y in multiset(xs) - multiset(xs[..k]) ensures key(x) >= key(y) {
      var b :| 0 <= b < |xs[k..]| && xs[k..][b] == y;
      var a :| 0 <= a < k && xs[..k][a] == x;
      assert xs[a] == x && xs[k + b] == y;
    }
  }

  /** In a sequence without repeats every value occurs at most once. */
  lemma {:induction false} DistinctAtMostOnce<T>(xs: seq<T>, x: T)
    requires Distinct(xs)
    ensures multiset(xs)[x] <= 1
  {
    if xs != [] {
      assert xs == [xs[0]] + xs[1..];
      assert Distinct(xs[1..]) by {
        forall i, j | 0 <= i < j < |xs[1..]| ensures xs[1..][i] != xs[1..][j] {
          assert xs[1..][i] == xs[i + 1] && xs[1..][j] == xs[j + 1];
        }
      }
      DistinctAtMostOnce(xs[1..], x);
      if xs[0] == x {
        assert x !in xs[1..];
      }
    }
  }

  /** Reordering a sequence without repeats introduces none. */
  lemma DistinctPermuted<T>(a: seq<T>, b: seq<T>)
    requires Distinct(a)
    requires multiset(a) == multiset(b)
    ensures Distinct(b)
  {
    forall i, j | 0 <= i < j < |b| ensures b[i] != b[j] {
      if b[i] == b[j] {
        assert b == b[..i] + [b[i]] + b[i + 1..j] + [b[j]] + b[j + 1..];
        assert multiset(b)[b[i]] >= 2;
        DistinctAtMostOnce(a, b[i]);
        assert false;
      }
    }
  }

  /** Reordering a sequence whose elements have pairwise different keys keeps the keys
      pairwise different. */
  lemma KeysDistinctPermuted<T, K>(a: seq<T>, b: seq<T>, key: T -> K)
    requires forall i, j :: 0 <= i < j < |a| ==> key(a[i]) != key(a[j])
    requires multiset(a) == multiset(b)
    ensures forall i, j :: 0 <= i < j < |b| ==> key(b[i]) != key(b[j])
  {
    assert Distinct(a) by {
      forall i, j | 0 <= i < j < |a| ensures a[i] != a[j] {
        assert key(a[i]) != key(a[j]);
      }
    }
    DistinctPermuted(a, b);
    forall i, j | 0 <= i < j < |b| ensures key(b[i]) != key(b[j]) {
      assert b[i] in multiset(a) && b[j] in multiset(a);
      var k :| 0 <= k < |a| && a[k] == b[i];
      var l :| 0 <= l < |a| && a[l] == b[j];
      if k < l {
        assert key(a[k]) != key(a[l]);
      } else {
        assert key(a[l]) != key(a[k]);
      }
    }
  }
}
