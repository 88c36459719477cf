/**
 Order-preserving filtering of sequences and the subsequence relation.

 Both the credential loader (which keeps the non-whitespace characters of the
 token file) and the student partition (which keeps the students the remote
 directory resolves, or the ones it does not) are instances of `Filter`.
 */
module Seqs {

  /** The elements of `s` that satisfy `p`, in their original order. */
  function Filter<T(==)>(s: seq<T>, p: T -> bool): (r: seq<T>)
    ensures |r| <= |s|
    ensures forall i :: 0 <= i < |r| ==> p(r[i])
    decreases |s|
  {
    if |s| == 0 then []
    else if p(s[0]) then [s[0]] + Filter(s[1..], p)
    else Filter(s[1..], p)
  }

  /** `t` can be obtained from `s` by deleting elements (order is kept). */
  predicate IsSubsequence<T(==)>(t: seq<T>, s: seq<T>)
    decreases |s|
  {
    |t| == 0 ||
    (|s| > 0 && ((t[0] == s[0] && IsSubsequence(t[1..], s[1..])) || IsSubsequence(t, s[1..])))
  }

  /** Every element of `s` satisfies `p`. */
  predicate All<T>(s: seq<T>, p: T -> bool) {
    forall i :: 0 <= i < |s| ==> p(s[i])
  }

  /** An element is kept by the filter exactly when it occurs in `s` and passes `p`. */
  lemma {:induction false} FilterMembership<T>(s: seq<T>, p: T -> bool, x: T)
    ensures x in Filter(s, p) <==> x in s && p(x)
    decreases |s|
  {
    if |s| > 0 {
      FilterMembership(s[1..], p, x);
      assert x in s <==> x == s[0] || x in s[1..];
    }
  }

  /** Filtering commutes with concatenation. */
  lemma {:induction false} FilterAppend<T>(a: seq<T>, b: seq<T>, p: T -> bool)
    ensures Filter(a + b, p) == Filter(a, p) + Filter(b, p)
    decreases |a|
  {
    if |a| > 0 {
      assert (a + b)[1..] == a[1..] + b;
      FilterAppend(a[1..], b, p);
    } else {
      assert a + b == b;
    }
  }

  /** Appending one element extends the filter by that element exactly when it passes. */
  lemma FilterSnoc<T>(s: seq<T>, x: T, p: T -> bool)
    ensures Filter(s + [x], p) == if p(x) then Filter(s, p) + [x] else Filter(s, p)
  {
    FilterAppend(s, [x], p);
    assert Filter([x], p) == if p(x) then [x] else [];
  }

  /** A sequence is left unchanged by a filter exactly when all its elements pass it. */
  lemma {:induction false} FilterFixedPoint<T>(s: seq<T>, p: T -> bool)
    ensures Filter(s, p) == s <==> All(s, p)
    decreases |s|
  {
    if |s| > 0 {
      FilterFixedPoint(s[1..], p);
      if All(s, p) {
        assert All(s[1..], p) by {
          forall i | 0 <= i < |s[1..]| ensures p(s[1..][i]) {
            assert s[1..][i] == s[i + 1];
          }
        }
        assert s == [s[0]] + s[1..];
      }
    }
  }

  /** Filtering twice by the same predicate is the same as filtering once. */
  lemma FilterIdempotent<T>(s: seq<T>, p: T -> bool)
    ensures Filter(Filter(s, p), p) == Filter(s, p)
  {
    FilterFixedPoint(Filter(s, p), p);
  }

  /** The filter of `s` is a subsequence of `s`. */
  lemma {:induction false} FilterIsSubsequence<T>(s: seq<T>, p: T -> bool)
    ensures IsSubsequence(Filter(s, p), s)
    decreases |s|
  {
    if |s| > 0 {
      FilterIsSubsequence(s[1..], p);
      if p(s[0]) {
        assert Filter(s, p)[1..] == Filter(s[1..], p);
      }
    }
  }

  /** No subsequence of `s` whose elements all pass `p` is longer than the filter of `s`. */
  lemma {:induction false} FilterIsLongest<T>(s: seq<T>, p: T -> bool, t: seq<T>)
    requires IsSubsequence(t, s) && All(t, p)
    ensures |t| <= |Filter(s, p)|
    decreases |s|
  {
    if |t| > 0 {
      assert |s| > 0;
      assert All(t[1..], p) by {
        forall i | 0 <= i < |t[1..]| ensures p(t[1..][i]) {
          assert t[1..][i] == t[i + 1];
        }
      }
      if t[0] == s[0] && IsSubsequence(t[1..], s[1..]) {
        assert p(t[0]);
        FilterIsLongest(s[1..], p, t[1..]);
      } else {
        FilterIsLongest(s[1..], p, t);
      }
    }
  }

  /**
   The filter of `s` is the only subsequence of `s` of its length whose
   elements all pass `p`: together with `FilterIsLongest`, the filter is the
   unique longest such subsequence.
   */
  lemma {:induction false} FilterIsUnique<T>(s: seq<T>, p: T -> bool, t: seq<T>)
    requires IsSubsequence(t, s) && All(t, p)
    requires |t| == |Filter(s, p)|
    ensures t == Filter(s, p)
    decreases |s|
  {
    if |t| > 0 {
      assert |s| > 0;
      assert All(t[1..], p) by {
        forall i | 0 <= i < |t[1..]| ensures p(t[1..][i]) {
          assert t[1..][i] == t[i + 1];
        }
      }
      if t[0] == s[0] && IsSubsequence(t[1..], s[1..]) {
        assert p(t[0]);
        FilterIsUnique(s[1..], p, t[1..]);
        assert t == [t[0]] + t[1..];
      } else {
        // If s[0] passed `p`, the filter of s[1..] would be shorter than t.
        FilterIsLongest(s[1..], p, t);
        FilterIsUnique(s[1..], p, t);
      }
    }
  }

  /** The negation of a predicate. */
  function Not<T>(p: T -> bool): T -> bool {
    x => !p(x)
  }

  /**
   Filtering by `p` and by its negation splits `s` into two parts that
   together hold every element of `s` exactly as often as `s` does.
   */
  lemma {:induction false} FilterPartition<T>(s: seq<T>, p: T -> bool)
    ensures |Filter(s, p)| + |Filter(s, Not(p))| == |s|
    ensures multiset(Filter(s, p)) + multiset(Filter(s, Not(p))) == multiset(s)
    decreases |s|
  {
    if |s| > 0 {
      FilterPartition(s[1..], p);
      assert s == [s[0]] + s[1..];
    }
  }
}
