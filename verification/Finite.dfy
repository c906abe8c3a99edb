/** Counting facts about finite sets of small numbers and duplicate-free sequences. */
module Finite {

  /** The numbers below `n`. */
  ghost function Below(n: nat): (r: set<nat>)
    ensures forall x: nat :: x in r <==> x < n
    ensures |r| == n
  {
    if n == 0 then {} else Below(n - 1) + {n - 1}
  }

  lemma FullSubset<T>(a: set<T>, b: set<T>)
    requires a <= b && |a| >= |b|
    ensures a == b
  {
    assert |b - a| == |b| - |a|;
  }

  lemma SubsetSize<T>(a: set<T>, b: set<T>)
    requires a <= b
    ensures |a| <= |b|
  {
    assert |b - a| == |b| - |a|;
  }

  /** A set of numbers below `n` that misses one of them has fewer than `n`. */
  lemma RoomLeft(s: set<nat>, n: nat, missing: nat)
    requires forall x :: x in s ==> x < n
    requires missing < n && missing !in s
    ensures |s| < n
  {
    SubsetSize(s + {missing}, Below(n));
  }

  lemma OneMore(s: set<nat>, x: nat, n: nat)
    requires x !in s && x < n && forall y :: y in s ==> y < n
    ensures |s + {x}| == |s| + 1 <= n
  {
    SubsetSize(s + {x}, Below(n));
  }

  ghost predicate NoDup<T>(s: seq<T>) {
    forall i, j :: 0 <= i < j < |s| ==> s[i] != s[j]
  }

  ghost function Elements<T>(s: seq<T>): set<T> {
    set x | x in s
  }

  lemma {:induction false} NoDupSize<T>(s: seq<T>)
    requires NoDup(s)
    ensures |Elements(s)| == |s|
  {
    if s == [] {
      assert Elements(s) == {};
    } else {
      var t := s[..|s| - 1];
      var x := s[|s| - 1];
      NoDupSize(t);
      assert x !in t;
      assert s == t + [x];
      assert Elements(s) == Elements(t) + {x};
    }
  }

  /** A duplicate-free sequence of numbers below `n` has at most `n` entries,
      and at most `n - 1` when it misses one of them. */
  lemma NoDupBound(s: seq<nat>, n: nat, missing: nat)
    requires NoDup(s)
    requires forall x :: x in s ==> x < n
    ensures |s| <= n
    ensures missing < n && missing !in s ==> |s| < n
  {
    NoDupSize(s);
    SubsetSize(Elements(s), Below(n));
    if missing < n && missing !in s {
      SubsetSize(Elements(s) + {missing}, Below(n));
    }
  }

  /** Two duplicate-free sequences with the same members have the same length. */
  lemma SameMembersSameLength<T>(s: seq<T>, t: seq<T>)
    requires NoDup(s) && NoDup(t)
    requires forall x :: x in s <==> x in t
    ensures |s| == |t|
  {
    NoDupSize(s);
    NoDupSize(t);
    assert Elements(s) == Elements(t);
  }
}
