/**
 * Order-preserving selection and element-wise mapping over sequences: the
 * boolean-mask filters and list comprehensions that the scripts apply to
 * pandas frames and Python lists.
 */
module Seqs {

  /** The elements of `s` that satisfy `p`, in their original order. */
  function Filter<T(!new)>(s: seq<T>, p: T -> bool): (r: seq<T>)
    ensures |r| <= |s|
    ensures forall x :: x in r <==> x in s && p(x)
  {
    if s == [] then []
    else (if p(s[0]) then [s[0]] else []) + Filter(s[1..], p)
  }

  /** `f` applied to every element of `s`, in order. */
  function MapSeq<T, U>(s: seq<T>, f: T -> U): (r: seq<U>)
    ensures |r| == |s|
    ensures forall i :: 0 <= i < |s| ==> r[i] == f(s[i])
  {
    if s == [] then [] else [f(s[0])] + MapSeq(s[1..], f)
  }

  /** `a` is obtained from `b` by deleting elements, without reordering. */
  ghost predicate IsSubsequence<T>(a: seq<T>, b: seq<T>)
    decreases |b|
  {
    if a == [] then true
    else if b == [] then false
    else (a[0] == b[0] && IsSubsequence(a[1..], b[1..])) || IsSubsequence(a, b[1..])
  }

  /** A filter keeps the source order. */
  lemma {:induction false} FilterIsSubsequence<T(!new)>(s: seq<T>, p: T -> bool)
    ensures IsSubsequence(Filter(s, p), s)
  {
    if s != [] {
      FilterIsSubsequence(s[1..], p);
      var r := Filter(s, p);
      if p(s[0]) {
        assert r == [s[0]] + Filter(s[1..], p);
        assert r[1..] == Filter(s[1..], p);
      } else {
        assert r == Filter(s[1..], p);
      }
    }
  }

  /**
   * A filter and the filter on the negated condition split `s`: together they
   * hold every element exactly as often as `s` does, and none is in both.
   */
  lemma {:induction false} FilterPartition<T(!new)>(s: seq<T>, p: T -> bool, q: T -> bool)
    requires forall x :: q(x) == !p(x)
    ensures multiset(Filter(s, p)) + multiset(Filter(s, q)) == multiset(s)
    ensures forall x :: x in s ==> (x in Filter(s, p) <==> x !in Filter(s, q))
  {
    if s != [] {
      FilterPartition(s[1..], p, q);
      var head, tail := s[0], s[1..];
      assert s == [head] + tail;
      var fp, fq := Filter(tail, p), Filter(tail, q);
      if p(head) {
        assert Filter(s, p) == [head] + fp;
        assert Filter(s, q) == fq;
        assert multiset([head] + fp) == multiset{head} + multiset(fp);
      } else {
        assert Filter(s, p) == fp;
        assert Filter(s, q) == [head] + fq;
        assert multiset([head] + fq) == multiset{head} + multiset(fq);
      }
      assert multiset(s) == multiset{head} + multiset(tail);
    }
  }

  /** A filter that no element passes is empty. */
  lemma {:induction false} FilterNone<T(!new)>(s: seq<T>, p: T -> bool)
    requires forall x :: x in s ==> !p(x)
    ensures Filter(s, p) == []
  {
    if s != [] {
      FilterNone(s[1..], p);
    }
  }

  /** Filters whose conditions agree on the elements of `s` give the same result. */
  lemma {:induction false} FilterCongruent<T(!new)>(s: seq<T>, p: T -> bool, q: T -> bool)
    requires forall x :: x in s ==> p(x) == q(x)
    ensures Filter(s, p) == Filter(s, q)
  {
    if s != [] {
      FilterCongruent(s[1..], p, q);
    }
  }

  /** The members of a mapped sequence are the images of the members. */
  lemma MapSeqMember<T, U>(s: seq<T>, f: T -> U, y: U)
    ensures y in MapSeq(s, f) <==> exists x :: x in s && f(x) == y
  {
    var r := MapSeq(s, f);
    if y in r {
      var i :| 0 <= i < |r| && r[i] == y;
      assert s[i] in s && f(s[i]) == y;
    }
    if exists x :: x in s && f(x) == y {
      var x :| x in s && f(x) == y;
      var i :| 0 <= i < |s| && s[i] == x;
      assert r[i] == y;
    }
  }
}
