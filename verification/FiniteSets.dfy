/** Sizes of finite sets, and sequences without repetitions. */
module FiniteSets {

  lemma Member<T>(s: set<T>) returns (z: T)
    requires s != {}
    ensures z in s
  {
    z :| z in s;
  }

  lemma {:induction false} SubsetSize<T>(a: set<T>, b: set<T>)
    requires a <= b
    ensures |a| <= |b|
  {
    assert a + (b - a) == b;
  }

  ghost function Union<T>(sets: seq<set<T>>): set<T> {
    if sets == [] then {} else Union(sets[..|sets| - 1]) + sets[|sets| - 1]
  }

  lemma {:induction false} UnionContains<T>(sets: seq<set<T>>, i: nat, x: T)
    requires i < |sets| && x in sets[i]
    ensures x in Union(sets)
  {
    if i < |sets| - 1 { UnionContains(sets[..|sets| - 1], i, x); }
  }

  lemma {:induction false} UnionSize<T>(sets: seq<set<T>>, bound: nat)
    requires forall i :: 0 <= i < |sets| ==> |sets[i]| <= bound
    ensures |Union(sets)| <= |sets| * bound
  {
    if sets != [] {
      var rest := sets[..|sets| - 1];
      UnionSize(rest, bound);
      UnionCard(Union(rest), sets[|sets| - 1]);
      assert |rest| * bound + bound == |sets| * bound by {
        assert (|rest| + 1) * bound == |rest| * bound + bound;
      }
    }
  }

  lemma UnionCard<T>(a: set<T>, b: set<T>)
    ensures |a + b| <= |a| + |b|
  {
    assert a + b == a + (b - a);
    SubsetSize(b - a, b);
  }

  lemma {:induction false} MembersSize(s: seq<int>)
    ensures |set x | x in s| <= |s|
  {
    if s != [] {
      var rest := s[..|s| - 1];
      MembersSize(rest);
      assert (set x | x in s) == (set x | x in rest) + {s[|s| - 1]};
    }
  }

  ghost predicate Distinct(s: seq<int>) {
    forall i, j :: 0 <= i < j < |s| ==> s[i] != s[j]
  }

  lemma {:induction false} DistinctSize(s: seq<int>)
    requires Distinct(s)
    ensures |set x | x in s| == |s|
  {
    if s != [] {
      var rest := s[..|s| - 1];
      DistinctSize(rest);
      assert s[|s| - 1] !in rest;
      assert (set x | x in s) == (set x | x in rest) + {s[|s| - 1]};
    }
  }

  ghost function Interval(n: nat): (r: set<int>)
    ensures |r| == n && forall p :: p in r <==> 0 <= p < n
  {
    if n == 0 then {} else Interval(n - 1) + {n - 1}
  }

  lemma SubsetOfSameSize<T>(a: set<T>, b: set<T>)
    requires a <= b && |a| == |b|
    ensures a == b
  {
    assert b == a + (b - a);
    assert |b - a| == 0;
  }

  /** A set of positions is no larger than a set that contains the distinct entries there. */
  lemma {:induction false} InjectionSize(s: set<int>, ids: seq<int>, target: set<int>)
    requires Distinct(ids)
    requires forall n :: n in s ==> 0 <= n < |ids| && ids[n] in target
    ensures |s| <= |target|
    decreases |s|
  {
    if |s| > 0 {
      var n := Member(s);
      forall m | m in s - {n} ensures ids[m] in target - {ids[n]} {
        if m < n { assert ids[m] != ids[n]; } else { assert ids[n] != ids[m]; }
      }
      InjectionSize(s - {n}, ids, target - {ids[n]});
    }
  }
}
