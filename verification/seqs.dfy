/**
 Order-preserving selection over sequences: the `where` operation of the
 table engine, stated once for any element type, together with an
 independent reference description (`SelectsExactly`) and the laws the
 cleaning functions rely on.
 */
module Seqs {

  /** The complement of a predicate. */
  function Not<T(!new)>(p: T -> bool): (q: T -> bool)
    ensures forall x :: q(x) == !p(x)
  {
    x => !p(x)
  }

  /** The conjunction of two predicates. */
  function And<T(!new)>(p: T -> bool, q: T -> bool): (pq: T -> bool)
    ensures forall x :: pq(x) == (p(x) && q(x))
  {
    x => p(x) && q(x)
  }

  /** Keeps the elements of `s` that satisfy `p`, in their original order. */
  function Filter<T(==,!new)>(p: T -> bool, s: seq<T>): (r: seq<T>)
    ensures |r| <= |s|
    ensures forall i :: 0 <= i < |r| ==> p(r[i])
  {
    if |s| == 0 then []
    else if p(s[0]) then [s[0]] + Filter(p, s[1..])
    else Filter(p, s[1..])
  }

  /** `Filter` keeps every element satisfying `p` exactly as often as it occurs, and nothing else. */
  lemma {:induction false} FilterMultiset<T(!new)>(p: T -> bool, s: seq<T>)
    ensures forall x {:trigger multiset(Filter(p, s))[x]} ::
              multiset(Filter(p, s))[x] == if p(x) then multiset(s)[x] else 0
    ensures forall i :: 0 <= i < |Filter(p, s)| ==> Filter(p, s)[i] in s
  {
    if |s| > 0 {
      assert s == [s[0]] + s[1..];
      FilterMultiset(p, s[1..]);
      var r := Filter(p, s);
      forall i | 0 <= i < |r|
        ensures r[i] in s
      {
        assert r[i] in multiset(r);
      }
    }
  }

  /** `r` can be obtained from `s` by deleting elements, without reordering. */
  ghost predicate IsSubsequence<T>(r: seq<T>, s: seq<T>)
    decreases |s|
  {
    |r| == 0 ||
    (|s| > 0 && ((r[0] == s[0] && IsSubsequence(r[1..], s[1..])) || IsSubsequence(r, s[1..])))
  }

  /**
   Reference description of a selection: `r` keeps the relative order of
   `s`, and holds every element of `s` satisfying `p`, as often as `s`
   does, and nothing else.
   */
  ghost predicate SelectsExactly<T(!new)>(r: seq<T>, s: seq<T>, p: T -> bool)
  {
    && IsSubsequence(r, s)
    && forall x :: multiset(r)[x] == if p(x) then multiset(s)[x] else 0
  }

  lemma {:induction false} SubsequenceMultiset<T(!new)>(r: seq<T>, s: seq<T>)
    requires IsSubsequence(r, s)
    ensures multiset(r) <= multiset(s)
    decreases |s|
  {
    if |r| == 0 {
    } else {
      assert s == [s[0]] + s[1..];
      if r[0] == s[0] && IsSubsequence(r[1..], s[1..]) {
        SubsequenceMultiset(r[1..], s[1..]);
        assert r == [r[0]] + r[1..];
      } else {
        SubsequenceMultiset(r, s[1..]);
      }
    }
  }

  /** `Filter` meets the reference description. */
  lemma {:induction false} FilterSelectsExactly<T(!new)>(p: T -> bool, s: seq<T>)
    ensures SelectsExactly(Filter(p, s), s, p)
  {
    FilterMultiset(p, s);
    if |s| > 0 {
      FilterSelectsExactly(p, s[1..]);
      var r := Filter(p, s);
      if p(s[0]) {
        assert r[0] == s[0] && r[1..] == Filter(p, s[1..]);
      }
    }
  }

  /** Only `Filter` meets the reference description. */
  lemma {:induction false} SelectsExactlyUnique<T(!new)>(r: seq<T>, s: seq<T>, p: T -> bool)
    requires SelectsExactly(r, s, p)
    ensures r == Filter(p, s)
    decreases |s|
  {
    if |s| == 0 {
    } else {
      var x, t := s[0], s[1..];
      assert s == [x] + t;
      if p(x) {
        assert multiset(r)[x] == multiset(s)[x] > 0;
        assert |r| > 0;
        if !(r[0] == x && IsSubsequence(r[1..], t)) {
          SubsequenceMultiset(r, t);
          assert false;
        }
        assert r == [x] + r[1..];
        forall y
          ensures multiset(r[1..])[y] == if p(y) then multiset(t)[y] else 0
        {
          assert multiset(r)[y] == multiset(r[1..])[y] + (if y == x then 1 else 0);
        }
        SelectsExactlyUnique(r[1..], t, p);
      } else {
        assert multiset(r)[x] == 0;
        if |r| > 0 {
          assert r[0] in multiset(r);
          assert IsSubsequence(r, t);
        }
        forall y
          ensures multiset(r)[y] == if p(y) then multiset(t)[y] else 0
        {
          if p(y) {
            assert y != x;
          }
        }
        SelectsExactlyUnique(r, t, p);
      }
    }
  }

  /** The reference description depends on the predicate only at elements of the input. */
  lemma SelectsExactlyAgree<T(!new)>(r: seq<T>, s: seq<T>, p: T -> bool, q: T -> bool)
    requires SelectsExactly(r, s, p)
    requires forall x :: x in s ==> p(x) == q(x)
    ensures SelectsExactly(r, s, q)
  {
    forall x
      ensures multiset(r)[x] == if q(x) then multiset(s)[x] else 0
    {
      if x !in s {
        assert multiset(s)[x] == 0;
      }
    }
  }

  /** `Filter` is characterised by the reference description, in both directions. */
  lemma FilterCharacterization<T(!new)>(r: seq<T>, s: seq<T>, p: T -> bool)
    ensures r == Filter(p, s) <==> SelectsExactly(r, s, p)
  {
    FilterSelectsExactly(p, s);
    if SelectsExactly(r, s, p) {
      SelectsExactlyUnique(r, s, p);
    }
  }

  /** Selecting by `p` then by `q` is selecting by both at once. */
  lemma {:induction false} FilterFilter<T(!new)>(p: T -> bool, q: T -> bool, s: seq<T>)
    ensures Filter(q, Filter(p, s)) == Filter(And(p, q), s)
  {
    if |s| > 0 {
      FilterFilter(p, q, s[1..]);
    }
  }

  /** A predicate and its complement split `s` into two parts that together hold every element once. */
  lemma FilterSplit<T(!new)>(p: T -> bool, s: seq<T>)
    ensures multiset(Filter(p, s)) + multiset(Filter(Not(p), s)) == multiset(s)
    ensures |Filter(p, s)| + |Filter(Not(p), s)| == |s|
  {
    var a, b := Filter(p, s), Filter(Not(p), s);
    FilterMultiset(p, s);
    FilterMultiset(Not(p), s);
    assert multiset(a) + multiset(b) == multiset(s) by {
      forall x
        ensures (multiset(a) + multiset(b))[x] == multiset(s)[x]
      {
      }
    }
    calc {
      |a| + |b|;
      |multiset(a)| + |multiset(b)|;
      |multiset(a) + multiset(b)|;
      |multiset(s)|;
      |s|;
    }
  }

  /** When every element satisfies `p`, selection keeps the whole sequence. */
  lemma {:induction false} FilterAll<T(!new)>(p: T -> bool, s: seq<T>)
    requires forall i :: 0 <= i < |s| ==> p(s[i])
    ensures Filter(p, s) == s
  {
    if |s| > 0 {
      FilterAll(p, s[1..]);
      assert s == [s[0]] + s[1..];
    }
  }
}
