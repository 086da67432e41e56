/**
 Orders over finite sets, and a selection that lists the first `n` elements of a set in
 order. Ties are broken by an arbitrary choice, which models the unspecified order of equal
 keys in a database `ORDER BY` and in the unstable `List.Sort`.
 */
module Ordering {

  function Min(a: int, b: int): int
  {
    if a <= b then a else b
  }

  /** `leq` is total and transitive on `s` (reflexivity follows from totality). */
  ghost predicate TotalPreorderOn<T>(s: set<T>, leq: (T, T) -> bool)
  {
    && (forall a, b :: a in s && b in s ==> leq(a, b) || leq(b, a))
    && (forall a, b, c :: a in s && b in s && c in s && leq(a, b) && leq(b, c) ==> leq(a, c))
  }

  ghost predicate Distinct<T>(r: seq<T>)
  {
    forall i, j :: 0 <= i < j < |r| ==> r[i] != r[j]
  }

  ghost predicate SortedBy<T>(r: seq<T>, leq: (T, T) -> bool)
  {
    forall i, j :: 0 <= i < j < |r| ==> leq(r[i], r[j])
  }

  /** `r` lists `min(n, |s|)` distinct elements of `s` in `leq` order, and no element of `s`
      left out of `r` comes strictly before an element of `r`. */
  ghost predicate LeastPrefix<T>(s: set<T>, leq: (T, T) -> bool, n: nat, r: seq<T>)
  {
    && |r| == Min(n, |s|)
    && (forall i :: 0 <= i < |r| ==> r[i] in s)
    && Distinct(r)
    && SortedBy(r, leq)
    && (forall i, x :: 0 <= i < |r| && x in s && x !in r ==> leq(r[i], x))
  }

  /** A finite non-empty set has a least element under a total preorder. */
  lemma {:induction false} LeastExists<T>(s: set<T>, leq: (T, T) -> bool)
    requires s != {}
    requires TotalPreorderOn(s, leq)
    ensures exists m :: m in s && forall x :: x in s ==> leq(m, x)
  {
    var y :| y in s;
    if s == {y} {
      assert forall x :: x in s ==> leq(y, x);
    } else {
      var rest := s - {y};
      assert TotalPreorderOn(rest, leq);
      LeastExists(rest, leq);
      var m :| m in rest && forall x :: x in rest ==> leq(m, x);
      if leq(m, y) {
        assert forall x :: x in s ==> leq(m, x);
      } else {
        assert leq(y, m);
        assert forall x :: x in s ==> leq(y, x);
      }
    }
  }

  /** Selection: repeatedly take a least remaining element, until `n` are taken or none is left. */
  method SelectLeast<T(==)>(s: set<T>, n: nat, leq: (T, T) -> bool) returns (r: seq<T>)
    requires TotalPreorderOn(s, leq)
    ensures LeastPrefix(s, leq, n, r)
    ensures n >= |s| ==> forall x :: x in s ==> x in r
  {
    r := [];
    var rest := s;
    while |r| < n && rest != {}
      invariant rest <= s
      invariant forall x :: x in s ==> (x in rest <==> x !in r)
      invariant |rest| == |s| - |r|
      invariant |r| <= n
      invariant forall i :: 0 <= i < |r| ==> r[i] in s
      invariant Distinct(r)
      invariant SortedBy(r, leq)
      invariant forall i, x :: 0 <= i < |r| && x in rest ==> leq(r[i], x)
      decreases rest
    {
      LeastExists(rest, leq);
      var m :| m in rest && forall x :: x in rest ==> leq(m, x);
      r := r + [m];
      rest := rest - {m};
    }
  }

  /** A sequence without repeats has as many elements as it has entries. */
  lemma {:induction false} DistinctCardinality<T>(r: seq<T>)
    requires Distinct(r)
    ensures |set x | x in r| == |r|
    decreases |r|
  {
    if r != [] {
      var prefix := r[..|r| - 1];
      DistinctCardinality(prefix);
      assert (set x | x in r) == (set x | x in prefix) + {r[|r| - 1]};
      assert r[|r| - 1] !in prefix;
    }
  }

  lemma {:induction false} SubsetCardinality<T>(a: set<T>, b: set<T>)
    requires a <= b
    ensures |a| <= |b|
    decreases a
  {
    if a != {} {
      var x :| x in a;
      SubsetCardinality(a - {x}, b - {x});
    }
  }

  /** An element of the larger set that the smaller one lacks. */
  lemma Outside<T>(a: set<T>, b: set<T>) returns (x: T)
    requires |a| > |b|
    ensures x in a && x !in b
  {
    if a <= b {
      SubsetCardinality(a, b);
    }
    x :| x in a && x !in b;
  }
}
