/**
  `Array.prototype.filter` and `reduce`-style sums, shared by the list
  computations.
 */
module Lists {

  /** The elements satisfying `p`, in their original order. */
  function Select<T>(xs: seq<T>, p: T -> bool): seq<T>
    decreases |xs|
  {
    if xs == [] then [] else (if p(xs[0]) then [xs[0]] else []) + Select(xs[1..], p)
  }

  /** `Select` keeps no element more often than it occurs, so it is never longer. */
  lemma {:induction false} SelectShrinks<T>(xs: seq<T>, p: T -> bool)
    ensures |Select(xs, p)| <= |xs|
    ensures multiset(Select(xs, p)) <= multiset(xs)
    decreases |xs|
  {
    if xs != [] {
      SelectShrinks(xs[1..], p);
      assert multiset(xs) == multiset{xs[0]} + multiset(xs[1..]) by {
        assert xs == [xs[0]] + xs[1..];
      }
    }
  }

  /** Everything `Select` keeps satisfies `p`. */
  lemma {:induction false} SelectSatisfies<T>(xs: seq<T>, p: T -> bool)
    ensures forall i :: 0 <= i < |Select(xs, p)| ==> p(Select(xs, p)[i])
    decreases |xs|
  {
    if xs != [] {
      SelectSatisfies(xs[1..], p);
      var head := if p(xs[0]) then [xs[0]] else [];
      var rest := Select(xs[1..], p);
      forall i | 0 <= i < |Select(xs, p)|
        ensures p(Select(xs, p)[i])
      {
        if i >= |head| {
          assert Select(xs, p)[i] == rest[i - |head|];
        }
      }
    }
  }

  /** `Select` keeps every element that satisfies `p`, and only those. */
  lemma {:induction false} SelectMembers<T>(xs: seq<T>, p: T -> bool)
    ensures forall x :: x in Select(xs, p) <==> x in xs && p(x)
    decreases |xs|
  {
    if xs != [] {
      SelectMembers(xs[1..], p);
      assert xs == [xs[0]] + xs[1..];
    }
  }

  /** `xs.filter(p)`. */
  function Filter<T(!new)>(xs: seq<T>, p: T -> bool): (r: seq<T>)
    ensures |r| <= |xs|
    ensures forall i :: 0 <= i < |r| ==> p(r[i])
    ensures forall x :: x in r <==> x in xs && p(x)
    ensures multiset(r) <= multiset(xs)
  {
    SelectShrinks(xs, p);
    SelectSatisfies(xs, p);
    SelectMembers(xs, p);
    Select(xs, p)
  }

  /** Filtering keeps order: it distributes over concatenation. */
  lemma FilterAppend<T(!new)>(a: seq<T>, b: seq<T>, p: T -> bool)
    ensures Filter(a + b, p) == Filter(a, p) + Filter(b, p)
  {
    SelectAppend(a, b, p);
  }

  lemma {:induction false} SelectAppend<T>(a: seq<T>, b: seq<T>, p: T -> bool)
    ensures Select(a + b, p) == Select(a, p) + Select(b, p)
    decreases |a|
  {
    if a == [] {
      assert a + b == b;
    } else {
      var head := if p(a[0]) then [a[0]] else [];
      assert (a + b)[0] == a[0] && (a + b)[1..] == a[1..] + b;
      assert Select(a + b, p) == head + Select(a[1..] + b, p);
      SelectAppend(a[1..], b, p);
      assert head + (Select(a[1..], p) + Select(b, p)) == (head + Select(a[1..], p)) + Select(b, p);
    }
  }

  /** The positions of `xs` whose element satisfies `p`. */
  function Positions<T>(xs: seq<T>, p: T -> bool): set<int> {
    set i | 0 <= i < |xs| && p(xs[i])
  }

  /** The filtered list is as long as the number of positions whose element satisfies `p`. */
  lemma FilterCountsPositions<T(!new)>(xs: seq<T>, p: T -> bool)
    ensures |Filter(xs, p)| == |Positions(xs, p)|
  {
    SelectCountsPositions(xs, p);
  }

  lemma {:induction false} SelectCountsPositions<T>(xs: seq<T>, p: T -> bool)
    ensures |Select(xs, p)| == |Positions(xs, p)|
    decreases |xs|
  {
    if xs != [] {
      var n := |xs| - 1;
      var init := xs[..n];
      SelectCountsPositions(init, p);
      assert xs == init + [xs[n]];
      SelectAppend(init, [xs[n]], p);
      assert [xs[n]][1..] == [];
      if p(xs[n]) {
        assert Positions(xs, p) == Positions(init, p) + {n};
      } else {
        assert Positions(xs, p) == Positions(init, p);
      }
    }
  }

  /** Filtering with a predicate every element meets changes nothing. */
  lemma FilterAll<T(!new)>(xs: seq<T>, p: T -> bool)
    requires forall i :: 0 <= i < |xs| ==> p(xs[i])
    ensures Filter(xs, p) == xs
  {
    SelectAll(xs, p);
  }

  lemma {:induction false} SelectAll<T>(xs: seq<T>, p: T -> bool)
    requires forall i :: 0 <= i < |xs| ==> p(xs[i])
    ensures Select(xs, p) == xs
    decreases |xs|
  {
    if xs != [] {
      SelectAll(xs[1..], p);
    }
  }

  /** `xs.reduce((sum, x) => sum + f(x), 0)`. */
  function Sum<T>(xs: seq<T>, f: T -> int): int
    decreases |xs|
  {
    if xs == [] then 0 else f(xs[0]) + Sum(xs[1..], f)
  }

  /** Sums add up over concatenation. */
  lemma {:induction false} SumAppend<T>(a: seq<T>, b: seq<T>, f: T -> int)
    ensures Sum(a + b, f) == Sum(a, f) + Sum(b, f)
    decreases |a|
  {
    if a != [] {
      assert (a + b)[1..] == a[1..] + b;
      SumAppend(a[1..], b, f);
    } else {
      assert a + b == b;
    }
  }

  /** A sum of non-negative terms is non-negative. */
  lemma {:induction false} SumNonNegative<T>(xs: seq<T>, f: T -> int)
    requires forall i :: 0 <= i < |xs| ==> f(xs[i]) >= 0
    ensures Sum(xs, f) >= 0
    decreases |xs|
  {
    if xs != [] {
      SumNonNegative(xs[1..], f);
    }
  }
}
