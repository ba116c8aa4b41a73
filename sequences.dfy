/** The list operations the planner uses on `List<Node>`: `Add` is `s + [x]`,
    `Contains` is `x in s`, `Clear` is `[]`, and `Remove` is `RemoveFirst`. */
module Sequences {

  /** No element occurs twice. */
  ghost predicate Distinct<T>(s: seq<T>) {
    forall i, j :: 0 <= i < j < |s| ==> s[i] != s[j]
  }

  /** `List<T>.Remove`: deletes the first occurrence of `x`, if any, keeping the
      order of the other elements. */
  function RemoveFirst<T(==)>(s: seq<T>, x: T): (r: seq<T>)
    ensures multiset(r) == multiset(s) - multiset{x}
    ensures x !in s ==> r == s
    ensures x in s ==> |r| == |s| - 1
    ensures forall y :: y in r ==> y in s
    ensures forall y :: y in s && y != x ==> y in r
  {
    if s == [] then []
    else if s[0] == x then
      assert s == [s[0]] + s[1..];
      s[1..]
    else
      assert s == [s[0]] + s[1..];
      assert x in s ==> x in s[1..];
      [s[0]] + RemoveFirst(s[1..], x)
  }

  /** On a duplicate-free list, `Remove` keeps it duplicate-free and deletes
      exactly `x`. */
  lemma {:induction false} RemoveFirstDistinct<T>(s: seq<T>, x: T)
    requires Distinct(s)
    ensures Distinct(RemoveFirst(s, x))
    ensures x !in RemoveFirst(s, x)
  {
    if s != [] {
      var tail := s[1..];
      DistinctTail(s);
      if s[0] != x {
        RemoveFirstDistinct(tail, x);
        var rest := RemoveFirst(tail, x);
        assert s[0] !in rest;
        DistinctCons(s[0], rest);
      }
    }
  }

  /** Dropping the head keeps a list duplicate-free, and the head does not
      occur again. */
  lemma DistinctTail<T>(s: seq<T>)
    requires Distinct(s) && s != []
    ensures Distinct(s[1..]) && s[0] !in s[1..]
  {
    var tail := s[1..];
    forall i, j | 0 <= i < j < |tail| ensures tail[i] != tail[j] {
      assert tail[i] == s[i + 1] && tail[j] == s[j + 1];
    }
    forall j | 0 <= j < |tail| ensures tail[j] != s[0] {
      assert tail[j] == s[j + 1];
    }
  }

  /** A new head keeps a duplicate-free list duplicate-free. */
  lemma DistinctCons<T>(a: T, t: seq<T>)
    requires Distinct(t) && a !in t
    ensures Distinct([a] + t)
  {
    var r := [a] + t;
    forall i, j | 0 <= i < j < |r| ensures r[i] != r[j] {
      assert r[j] == t[j - 1];
      if i > 0 {
        assert r[i] == t[i - 1];
      }
    }
  }

  /** A duplicate-free list drawn from a finite set is no longer than the
      set is large: the counting fact behind the iteration bounds of the
      search. */
  lemma {:induction false} DistinctWithin<T>(s: seq<T>, S: set<T>)
    requires Distinct(s) && forall k :: 0 <= k < |s| ==> s[k] in S
    ensures |s| <= |S|
    decreases |s|
  {
    if s != [] {
      var rest := s[1..];
      forall k | 0 <= k < |rest|
        ensures rest[k] in S - {s[0]}
      {
        assert rest[k] == s[k + 1];
      }
      assert Distinct(rest) by {
        forall i, j | 0 <= i < j < |rest|
          ensures rest[i] != rest[j]
        {
          assert rest[i] == s[i + 1] && rest[j] == s[j + 1];
        }
      }
      DistinctWithin(rest, S - {s[0]});
      assert S == (S - {s[0]}) + {s[0]};
    }
  }

  /** A subset is no larger than its superset. */
  lemma {:induction false} SubsetSize<T>(a: set<T>, b: set<T>)
    requires a <= b
    ensures |a| <= |b|
    decreases |a|
  {
    if a != {} {
      var x :| x in a;
      SubsetSize(a - {x}, b - {x});
    }
  }
}
