/**
 * Order-preserving filtering of sequences, and the subsequence relation it
 * establishes. Both the review-app name filter and the age-based selection
 * are instances of `Filter`.
 */
module Sequences {

  /** The elements of `s` that satisfy `p`, in their original order. */
  function Filter<T>(s: seq<T>, p: T -> bool): seq<T>
  {
    if s == [] then []
    else Filter(s[..|s| - 1], p) + (if p(s[|s| - 1]) then [s[|s| - 1]] else [])
  }

  /** `sub` is obtained from `s` by deleting elements and keeping the rest in order. */
  predicate IsSubsequence<T(==)>(sub: seq<T>, s: seq<T>)
    decreases |s|
  {
    sub == [] ||
    (s != [] &&
     ((sub[|sub| - 1] == s[|s| - 1] && IsSubsequence(sub[..|sub| - 1], s[..|s| - 1])) ||
      IsSubsequence(sub, s[..|s| - 1])))
  }

  /** Concatenation is associative (stated separately to keep larger proofs small). */
  lemma ConcatAssociative<T>(a: seq<T>, b: seq<T>, c: seq<T>)
    ensures a + b + c == a + (b + c)
  {
  }

  /** Filtering a concatenation filters each part. */
  lemma {:induction false} FilterAppend<T>(a: seq<T>, b: seq<T>, p: T -> bool)
    ensures Filter(a + b, p) == Filter(a, p) + Filter(b, p)
    decreases |b|
  {
    if b == [] {
      assert a + b == a;
    } else {
      var b' := b[..|b| - 1];
      assert (a + b)[..|a + b| - 1] == a + b';
      FilterAppend(a, b', p);
    }
  }

  /** Every element kept by `Filter` satisfies `p`, and nothing is invented. */
  lemma {:induction false} FilterCount<T>(s: seq<T>, p: T -> bool, x: T)
    ensures multiset(Filter(s, p))[x] == if p(x) then multiset(s)[x] else 0
  {
    if s != [] {
      var s' := s[..|s| - 1];
      assert s == s' + [s[|s| - 1]];
      FilterCount(s', p, x);
    }
  }

  /** An element is kept exactly when it occurs in the input and satisfies `p`. */
  lemma {:induction false} FilterMembership<T>(s: seq<T>, p: T -> bool, x: T)
    ensures x in Filter(s, p) <==> x in s && p(x)
  {
    FilterCount(s, p, x);
  }

  /** The result of `Filter` is an order-preserving subsequence of its input. */
  lemma {:induction false} FilterSubsequence<T>(s: seq<T>, p: T -> bool)
    ensures IsSubsequence(Filter(s, p), s)
  {
    if s != [] {
      var s' := s[..|s| - 1];
      var r' := Filter(s', p);
      FilterSubsequence(s', p);
      if p(s[|s| - 1]) {
        assert (r' + [s[|s| - 1]])[..|r'|] == r';
      } else {
        assert Filter(s, p) == r';
      }
    }
  }

  /** Filtering an already filtered sequence with the same predicate changes nothing. */
  lemma {:induction false} FilterIdempotent<T>(s: seq<T>, p: T -> bool)
    ensures Filter(Filter(s, p), p) == Filter(s, p)
  {
    if s != [] {
      var s' := s[..|s| - 1];
      var x := s[|s| - 1];
      var tail := if p(x) then [x] else [];
      FilterIdempotent(s', p);
      FilterAppend(Filter(s', p), tail, p);
      if p(x) {
        assert Filter(tail, p) == Filter([], p) + [x] by { assert tail[..0] == []; }
      }
    }
  }

  /** A weaker predicate keeps at least what a stronger one keeps, in the same order. */
  lemma {:induction false} FilterMonotone<T>(s: seq<T>, p: T -> bool, q: T -> bool)
    requires forall x :: p(x) ==> q(x)
    ensures IsSubsequence(Filter(s, p), Filter(s, q))
  {
    if s != [] {
      var s' := s[..|s| - 1];
      var x := s[|s| - 1];
      var rp, rq := Filter(s', p), Filter(s', q);
      FilterMonotone(s', p, q);
      if p(x) {
        assert (rp + [x])[..|rp|] == rp;
        assert (rq + [x])[..|rq|] == rq;
      } else if q(x) {
        assert Filter(s, p) == rp && Filter(s, q) == rq + [x];
        assert (rq + [x])[..|rq + [x]| - 1] == rq;
        assert IsSubsequence(rp, rq + [x]);
      } else {
        assert Filter(s, p) == rp && Filter(s, q) == rq;
      }
    }
  }

  /** A subsequence is no longer than the sequence and holds no element more often. */
  lemma {:induction false} SubsequenceMultiset<T>(sub: seq<T>, s: seq<T>)
    requires IsSubsequence(sub, s)
    ensures |sub| <= |s|
    ensures multiset(sub) <= multiset(s)
    decreases |s|
  {
    if sub != [] {
      var s' := s[..|s| - 1];
      assert s == s' + [s[|s| - 1]];
      if sub[|sub| - 1] == s[|s| - 1] && IsSubsequence(sub[..|sub| - 1], s') {
        SubsequenceMultiset(sub[..|sub| - 1], s');
        assert sub == sub[..|sub| - 1] + [sub[|sub| - 1]];
      } else {
        SubsequenceMultiset(sub, s');
      }
    }
  }

  /** Being a subsequence is transitive. */
  lemma {:induction false} SubsequenceTransitive<T>(a: seq<T>, b: seq<T>, c: seq<T>)
    requires IsSubsequence(a, b) && IsSubsequence(b, c)
    ensures IsSubsequence(a, c)
    decreases |c|
  {
    if a != [] {
      SubsequenceMultiset(a, b);
      var c' := c[..|c| - 1];
      var b' := b[..|b| - 1];
      if b[|b| - 1] == c[|c| - 1] && IsSubsequence(b', c') {
        if a[|a| - 1] == b[|b| - 1] && IsSubsequence(a[..|a| - 1], b') {
          SubsequenceTransitive(a[..|a| - 1], b', c');
        } else {
          SubsequenceTransitive(a, b', c');
        }
      } else {
        SubsequenceTransitive(a, b, c');
      }
    }
  }
}
