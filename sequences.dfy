/**
 * Order-preserving selection from a sequence: the semantics of
 * `Array.prototype.filter`, and what it means for one sequence to be an
 * order-preserving subsequence of another.
 */
module Sequences {

  /** `r` can be obtained from `s` by deleting elements, keeping the order of the rest. */
  ghost predicate IsSubsequence<T>(r: seq<T>, s: seq<T>)
    decreases |s|
  {
    r == [] ||
    (s != [] && ((r[0] == s[0] && IsSubsequence(r[1..], s[1..])) || IsSubsequence(r, s[1..])))
  }

  /** `s.filter(p)`: the elements of `s` that satisfy `p`, in their original order. */
  function Filter<T>(s: seq<T>, p: T -> bool): (r: seq<T>)
    ensures |r| <= |s|
    ensures forall i :: 0 <= i < |r| ==> r[i] in s && p(r[i])
    ensures forall i :: 0 <= i < |s| && p(s[i]) ==> s[i] in r
  {
    if s == [] then []
    else if p(s[0]) then [s[0]] + Filter(s[1..], p)
    else Filter(s[1..], p)
  }

  lemma {:induction false} SubsequenceReflexive<T>(s: seq<T>)
    ensures IsSubsequence(s, s)
  {
    if s != [] {
      SubsequenceReflexive(s[1..]);
    }
  }

  /** A subsequence only holds elements of the sequence it was taken from. */
  lemma {:induction false} SubsequenceMembers<T>(r: seq<T>, s: seq<T>)
    requires IsSubsequence(r, s)
    ensures |r| <= |s|
    ensures forall x :: x in r ==> x in s
    decreases |s|
  {
    if r != [] {
      if r[0] == s[0] && IsSubsequence(r[1..], s[1..]) {
        SubsequenceMembers(r[1..], s[1..]);
        assert r == [r[0]] + r[1..];
        assert s == [s[0]] + s[1..];
      } else {
        SubsequenceMembers(r, s[1..]);
        assert s == [s[0]] + s[1..];
      }
    }
  }

  /** Deleting an element in front of the sequence keeps every subsequence of the rest. */
  lemma SubsequenceOfTail<T>(r: seq<T>, x: T, s: seq<T>)
    requires IsSubsequence(r, s)
    ensures IsSubsequence(r, [x] + s)
  {
    assert ([x] + s)[1..] == s;
  }

  /** The filter keeps the order of the elements it keeps. */
  lemma {:induction false} FilterIsSubsequence<T>(s: seq<T>, p: T -> bool)
    ensures IsSubsequence(Filter(s, p), s)
  {
    if s != [] {
      FilterIsSubsequence(s[1..], p);
      if p(s[0]) {
        var r := Filter(s, p);
        assert r[0] == s[0] && r[1..] == Filter(s[1..], p);
      }
    }
  }

  /** No subsequence whose elements all satisfy `p` is longer than the filter. */
  lemma {:induction false} FilterIsLongest<T>(s: seq<T>, p: T -> bool, r: seq<T>)
    requires IsSubsequence(r, s)
    requires forall x :: x in r ==> p(x)
    ensures |r| <= |Filter(s, p)|
    decreases |s|
  {
    if r != [] {
      if r[0] == s[0] && IsSubsequence(r[1..], s[1..]) {
        assert p(s[0]);
        assert forall x :: x in r[1..] ==> x in r;
        FilterIsLongest(s[1..], p, r[1..]);
      } else {
        FilterIsLongest(s[1..], p, r);
      }
    }
  }

  /**
   * The filter is the only subsequence of `s` of its length whose elements
   * all satisfy `p`: it is exactly the elements satisfying `p`, each one kept.
   */
  lemma {:induction false} FilterIsUnique<T>(s: seq<T>, p: T -> bool, r: seq<T>)
    requires IsSubsequence(r, s)
    requires forall x :: x in r ==> p(x)
    requires |r| >= |Filter(s, p)|
    ensures r == Filter(s, p)
    decreases |s|
  {
    if r == [] {
      assert |Filter(s, p)| == 0;
    } else if IsSubsequence(r, s[1..]) {
      FilterIsLongest(s[1..], p, r);
      assert !p(s[0]);
      FilterIsUnique(s[1..], p, r);
    } else {
      assert r[0] == s[0] && IsSubsequence(r[1..], s[1..]);
      assert p(s[0]);
      assert forall x :: x in r[1..] ==> x in r;
      FilterIsUnique(s[1..], p, r[1..]);
      assert r == [r[0]] + r[1..];
    }
  }

  /** A predicate that holds of every element filters nothing out. */
  lemma {:induction false} FilterKeepsAll<T>(s: seq<T>, p: T -> bool)
    requires forall x :: x in s ==> p(x)
    ensures Filter(s, p) == s
  {
    if s != [] {
      assert forall x :: x in s[1..] ==> x in s;
      FilterKeepsAll(s[1..], p);
      assert s == [s[0]] + s[1..];
    }
  }

  /** Two predicates that agree on the elements of `s` filter it alike. */
  lemma {:induction false} FilterCongruent<T>(s: seq<T>, p: T -> bool, q: T -> bool)
    requires forall x :: x in s ==> p(x) == q(x)
    ensures Filter(s, p) == Filter(s, q)
  {
    if s != [] {
      assert forall x :: x in s[1..] ==> x in s;
      FilterCongruent(s[1..], p, q);
    }
  }

  /** Filtering by a stronger predicate selects a subsequence of what the weaker one selects. */
  lemma {:induction false} FilterNarrows<T>(s: seq<T>, p: T -> bool, q: T -> bool)
    requires forall x :: x in s && q(x) ==> p(x)
    ensures IsSubsequence(Filter(s, q), Filter(s, p))
  {
    if s != [] {
      assert forall x :: x in s[1..] ==> x in s;
      FilterNarrows(s[1..], p, q);
      var rq, rp := Filter(s[1..], q), Filter(s[1..], p);
      if q(s[0]) {
        assert Filter(s, q) == [s[0]] + rq && Filter(s, p) == [s[0]] + rp;
        assert ([s[0]] + rq)[1..] == rq && ([s[0]] + rp)[1..] == rp;
      } else if p(s[0]) {
        SubsequenceOfTail(rq, s[0], rp);
      }
    }
  }
}
