/** The ascending sequence of a finite set of integers: the order in which std::set and std::map
    with integer keys are iterated. */
module Ascending {
  import opened FiniteSets

  lemma {:induction false} LeastExists(s: set<int>)
    requires |s| > 0
    ensures exists x :: x in s && forall y :: y in s ==> x <= y
  {
    var z := Member(s);
    var rest := s - {z};
    assert forall y :: y in s ==> y == z || y in rest;
    if |rest| != 0 {
      LeastExists(rest);
      var x :| x in rest && forall y :: y in rest ==> x <= y;
      var least := if x <= z then x else z;
      assert least in s;
    }
  }

  function Least(s: set<int>): (least: int)
    requires |s| > 0
    ensures least in s && forall y :: y in s ==> least <= y
  {
    LeastExists(s);
    var x :| x in s && forall y :: y in s ==> x <= y;
    x
  }

  predicate Increasing(s: seq<int>) {
    forall i, j :: 0 <= i < j < |s| ==> s[i] < s[j]
  }

  function Sorted(s: set<int>): (r: seq<int>)
    ensures |r| == |s| && Increasing(r)
    ensures forall x :: x in r <==> x in s
    ensures forall i :: 0 <= i < |r| ==> r[i] in s
    decreases |s|
  {
    if s == {} then [] else
    var x := Least(s);
    var rest := Sorted(s - {x});
    assert forall y :: y in rest ==> y in s - {x} && x < y;
    [x] + rest
  }

  lemma FirstIsMember(s: seq<int>)
    ensures |s| > 0 ==> s[0] in s
  {
  }

  /** An increasing sequence is determined by its members. */
  lemma {:induction false} IncreasingUnique(a: seq<int>, b: seq<int>)
    requires Increasing(a) && Increasing(b)
    requires forall x :: x in a <==> x in b
    ensures a == b
    decreases |a|
  {
    if |a| == 0 {
      FirstIsMember(b);
    } else {
      var m, n := |a| - 1, |b| - 1;
      assert a[m] in a && a[m] in b;
      assert b[n] in b && b[n] in a;
      var i :| 0 <= i < |b| && b[i] == a[m];
      var j :| 0 <= j < |a| && a[j] == b[n];
      assert b[i] <= b[n] && a[j] <= a[m];
      assert a[m] == b[n];
      var a', b' := a[..m], b[..n];
      forall x ensures x in a' <==> x in b' {
        assert x in a' <==> x in a && x != a[m] by { FrontMember(a, x); }
        assert x in b' <==> x in b && x != b[n] by { FrontMember(b, x); }
      }
      IncreasingUnique(a', b');
      assert a == a' + [a[m]] && b == b' + [b[n]];
    }
  }

  lemma FrontMember(a: seq<int>, x: int)
    requires |a| > 0 && Increasing(a)
    ensures x in a[..|a| - 1] <==> x in a && x != a[|a| - 1]
  {
    if x in a && x != a[|a| - 1] {
      var i :| 0 <= i < |a| && a[i] == x;
      assert a[..|a| - 1][i] == x;
    }
    if x in a[..|a| - 1] {
      var i :| 0 <= i < |a| - 1 && a[i] == x;
      assert a[i] < a[|a| - 1];
    }
  }

  lemma AppendMember(s: seq<int>, n: int, x: int)
    ensures x in s + [n] <==> x in s || x == n
  {
    if x == n { assert (s + [n])[|s|] == x; }
  }

  lemma SortedAppend(s: set<int>, n: int)
    requires forall k :: k in s ==> k < n
    ensures Sorted(s + {n}) == Sorted(s) + [n]
  {
    var a, r := Sorted(s), Sorted(s) + [n];
    assert Increasing(r) by {
      forall i, j | 0 <= i < j < |r| ensures r[i] < r[j] {
        assert r[i] == a[i] && a[i] in s;
      }
    }
    forall x ensures x in r <==> x in Sorted(s + {n}) { AppendMember(a, n, x); }
    IncreasingUnique(r, Sorted(s + {n}));
  }
}
