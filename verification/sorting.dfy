/**
  `Array.prototype.sort` with a numeric comparator of the shape
  `(a, b) => key(b) - key(a)` (descending) or `key(a) - key(b)` (ascending).
  JavaScript's sort is stable, so it is modelled as a stable insertion sort.
 */
module Sorting {

  /** Keys never increase from left to right. */
  ghost predicate SortedDesc<T>(xs: seq<T>, key: T -> int) {
    forall i, j :: 0 <= i < j < |xs| ==> key(xs[i]) >= key(xs[j])
  }

  /** Keys never decrease from left to right. */
  ghost predicate SortedAsc<T>(xs: seq<T>, key: T -> int) {
    forall i, j :: 0 <= i < j < |xs| ==> key(xs[i]) <= key(xs[j])
  }

  /**
    Places `x` in front of the first element whose key is strictly smaller, so
    `x`, which comes later in the input, stays behind every equal element.
   */
  function InsertDesc<T>(x: T, xs: seq<T>, key: T -> int): (r: seq<T>)
    requires SortedDesc(xs, key)
    ensures SortedDesc(r, key)
    ensures multiset(r) == multiset(xs) + multiset{x}
    ensures |r| == |xs| + 1
  {
    if xs == [] || key(xs[0]) < key(x) then
      [x] + xs
    else
      var rest := InsertDesc(x, xs[1..], key);
      assert xs == [xs[0]] + xs[1..];
      BoundedByHead(xs[0], x, xs[1..], rest, key);
      ConsSortedDesc(xs[0], rest, key);
      [xs[0]] + rest
  }

  /** When `x` and all of `tail` have keys at most `key(h)`, so has any rearrangement of them. */
  lemma BoundedByHead<T>(h: T, x: T, tail: seq<T>, rest: seq<T>, key: T -> int)
    requires multiset(rest) == multiset(tail) + multiset{x}
    requires key(x) <= key(h) && forall k :: 0 <= k < |tail| ==> key(tail[k]) <= key(h)
    ensures forall k :: 0 <= k < |rest| ==> key(rest[k]) <= key(h)
  {
    forall k | 0 <= k < |rest|
      ensures key(rest[k]) <= key(h)
    {
      assert rest[k] in multiset(rest);
      if rest[k] != x {
        assert rest[k] in multiset(tail);
        var m :| 0 <= m < |tail| && tail[m] == rest[k];
      }
    }
  }

  /** A sorted sequence stays sorted behind an element whose key bounds all of it. */
  lemma ConsSortedDesc<T>(h: T, rest: seq<T>, key: T -> int)
    requires SortedDesc(rest, key)
    requires forall k :: 0 <= k < |rest| ==> key(rest[k]) <= key(h)
    ensures SortedDesc([h] + rest, key)
  {
    var r := [h] + rest;
    forall i, j | 0 <= i < j < |r|
      ensures key(r[i]) >= key(r[j])
    {
      assert r[j] == rest[j - 1];
      if i > 0 {
        assert r[i] == rest[i - 1];
      }
    }
  }

  /** A stable sort by descending key: sorted, and a permutation of the input. */
  function SortDesc<T>(xs: seq<T>, key: T -> int): (r: seq<T>)
    ensures SortedDesc(r, key)
    ensures multiset(r) == multiset(xs)
    ensures |r| == |xs|
    decreases |xs|
  {
    if xs == [] then []
    else
      assert xs == xs[..|xs| - 1] + [xs[|xs| - 1]];
      InsertDesc(xs[|xs| - 1], SortDesc(xs[..|xs| - 1], key), key)
  }

  /** A stable sort by ascending key: sorted, and a permutation of the input. */
  function SortAsc<T>(xs: seq<T>, key: T -> int): (r: seq<T>)
    ensures SortedAsc(r, key)
    ensures multiset(r) == multiset(xs)
  {
    SortDesc(xs, x => -key(x))
  }

  /**
    Cutting a descending sequence after `k` elements keeps the newest: an
    element left out has a key no larger than any element kept.
   */
  lemma PrefixDominates<T>(xs: seq<T>, k: nat, key: T -> int)
    requires SortedDesc(xs, key) && k <= |xs|
    ensures forall x, y :: x in xs && x !in xs[..k] && y in xs[..k] ==> key(y) >= key(x)
  {
    forall x, y | x in xs && x !in xs[..k] && y in xs[..k]
      ensures key(y) >= key(x)
    {
      var i :| 0 <= i < |xs| && xs[i] == x;
      var j :| 0 <= j < k && xs[..k][j] == y;
    }
  }

  /** Every prefix of a sorted sequence is sorted. */
  lemma PrefixSortedDesc<T>(xs: seq<T>, n: nat, key: T -> int)
    requires SortedDesc(xs, key) && n <= |xs|
    ensures SortedDesc(xs[..n], key)
  {
  }
}
