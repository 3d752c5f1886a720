/** Sequence operations the source uses through JavaScript built-ins:
    `Array.prototype.filter`, and `Set` objects, which iterate in insertion order. */
module Sequences {

  /** `s.filter(keep)`: the elements of `s` that satisfy `keep`, in their original order. */
  function Filter<T(==,!new)>(s: seq<T>, keep: T -> bool): (r: seq<T>)
    ensures |r| <= |s|
    ensures forall x :: x in r <==> x in s && keep(x)
  {
    if s == [] then []
    else (if keep(s[0]) then [s[0]] else []) + Filter(s[1..], keep)
  }

  /** `a` is obtained from `b` by deleting elements, without reordering. */
  predicate IsSubsequence<T(==,!new)>(a: seq<T>, b: seq<T>)
    decreases |b|
  {
    if a == [] then true
    else if b == [] then false
    else IsSubsequence(a, b[1..]) || (a[0] == b[0] && IsSubsequence(a[1..], b[1..]))
  }

  /** No element occurs twice. */
  predicate Distinct<T(==,!new)>(s: seq<T>)
  {
    forall i, j :: 0 <= i < j < |s| ==> s[i] != s[j]
  }

  /** Every filter result is an order-preserving subsequence of its input. */
  lemma {:induction false} FilterIsSubsequence<T(!new)>(s: seq<T>, keep: T -> bool)
    ensures IsSubsequence(Filter(s, keep), s)
  {
    if s != [] {
      FilterIsSubsequence(s[1..], keep);
      var rest := Filter(s[1..], keep);
      if keep(s[0]) {
        assert Filter(s, keep) == [s[0]] + rest;
        assert ([s[0]] + rest)[1..] == rest;
      } else {
        assert Filter(s, keep) == rest;
        SubsequenceOfTail(rest, s);
      }
    }
  }

  /** A subsequence of the tail is a subsequence of the whole. */
  lemma SubsequenceOfTail<T(!new)>(a: seq<T>, b: seq<T>)
    requires b != [] && IsSubsequence(a, b[1..])
    ensures IsSubsequence(a, b)
  {
  }

  /** Filtering with a predicate that holds of every element changes nothing. */
  lemma {:induction false} FilterKeepsAll<T(!new)>(s: seq<T>, keep: T -> bool)
    requires forall x :: x in s ==> keep(x)
    ensures Filter(s, keep) == s
  {
    if s != [] {
      assert s[0] in s;
      assert forall x :: x in s[1..] ==> x in s;
      FilterKeepsAll(s[1..], keep);
      assert s == [s[0]] + s[1..];
    }
  }

  /** Filtering depends only on the values of the predicate on the elements. */
  lemma {:induction false} FilterCongruent<T(!new)>(s: seq<T>, p: T -> bool, q: T -> bool)
    requires forall x :: x in s ==> p(x) == q(x)
    ensures Filter(s, p) == Filter(s, q)
  {
    if s != [] {
      assert s[0] in s;
      assert forall x :: x in s[1..] ==> x in s;
      FilterCongruent(s[1..], p, q);
    }
  }

  /** Two successive filters are one filter by the conjunction. */
  lemma {:induction false} FilterThenFilter<T(!new)>(s: seq<T>, p: T -> bool, q: T -> bool, pq: T -> bool)
    requires forall x :: pq(x) == (p(x) && q(x))
    ensures Filter(Filter(s, p), q) == Filter(s, pq)
  {
    if s != [] {
      FilterThenFilter(s[1..], p, q, pq);
      var head := if p(s[0]) then [s[0]] else [];
      FilterAppend(head, Filter(s[1..], p), q);
    }
  }

  /** Filtering distributes over concatenation. */
  lemma {:induction false} FilterAppend<T(!new)>(a: seq<T>, b: seq<T>, keep: T -> bool)
    ensures Filter(a + b, keep) == Filter(a, keep) + Filter(b, keep)
  {
    if a == [] {
      assert a + b == b;
    } else {
      assert (a + b)[0] == a[0];
      assert (a + b)[1..] == a[1..] + b;
      FilterAppend(a[1..], b, keep);
    }
  }

  /** Filtering keeps a sequence free of duplicates. */
  lemma {:induction false} FilterDistinct<T(!new)>(s: seq<T>, keep: T -> bool)
    requires Distinct(s)
    ensures Distinct(Filter(s, keep))
  {
    if s != [] {
      assert Distinct(s[1..]) by {
        forall i, j | 0 <= i < j < |s[1..]| ensures s[1..][i] != s[1..][j] {
          assert s[1..][i] == s[i + 1] && s[1..][j] == s[j + 1];
        }
      }
      FilterDistinct(s[1..], keep);
      var rest := Filter(s[1..], keep);
      if keep(s[0]) {
        assert s[0] !in s[1..] by {
          forall k | 0 <= k < |s[1..]| ensures s[1..][k] != s[0] {
            assert s[1..][k] == s[k + 1];
          }
        }
        assert s[0] !in rest;
        var r := [s[0]] + rest;
        forall i, j | 0 <= i < j < |r| ensures r[i] != r[j] {
          if i == 0 {
            assert r[j] == rest[j - 1];
            assert rest[j - 1] in rest;
          } else {
            assert r[i] == rest[i - 1] && r[j] == rest[j - 1];
          }
        }
      }
    }
  }

  /** A duplicate-free sequence has as many elements as its set of elements. */
  lemma {:induction false} DistinctCardinality<T(!new)>(s: seq<T>)
    requires Distinct(s)
    ensures |set x | x in s| == |s|
  {
    if s != [] {
      var tail := s[1..];
      assert Distinct(tail) by {
        forall i, j | 0 <= i < j < |tail| ensures tail[i] != tail[j] {
          assert tail[i] == s[i + 1] && tail[j] == s[j + 1];
        }
      }
      assert s[0] !in tail by {
        forall k | 0 <= k < |tail| ensures tail[k] != s[0] {
          assert tail[k] == s[k + 1];
        }
      }
      DistinctCardinality(tail);
      assert (set x | x in s) == {s[0]} + (set x | x in tail) by {
        assert s == [s[0]] + tail;
      }
    }
  }

  /** Strictly increasing integers. */
  predicate Increasing(s: seq<int>)
  {
    forall i, j :: 0 <= i < j < |s| ==> s[i] < s[j]
  }

  /** Appending a value above every element keeps a sequence increasing. */
  lemma IncreasingAppend(s: seq<int>, x: int)
    requires Increasing(s) && forall i :: 0 <= i < |s| ==> s[i] < x
    ensures Increasing(s + [x])
  {
    var t := s + [x];
    forall i, j | 0 <= i < j < |t| ensures t[i] < t[j] {
      assert t[i] == s[i];
    }
  }

  /** Filtering keeps a sequence strictly increasing. */
  lemma {:induction false} FilterIncreasing(s: seq<int>, keep: int -> bool)
    requires Increasing(s)
    ensures Increasing(Filter(s, keep))
  {
    if s != [] {
      var tail := s[1..];
      assert Increasing(tail) by {
        forall i, j | 0 <= i < j < |tail| ensures tail[i] < tail[j] {
          assert tail[i] == s[i + 1] && tail[j] == s[j + 1];
        }
      }
      FilterIncreasing(tail, keep);
      var rest := Filter(tail, keep);
      if keep(s[0]) {
        var r := [s[0]] + rest;
        forall i, j | 0 <= i < j < |r| ensures r[i] < r[j] {
          assert r[j] == rest[j - 1] && rest[j - 1] in rest;
          if i > 0 {
            assert r[i] == rest[i - 1];
          } else {
            var k :| 0 <= k < |tail| && tail[k] == rest[j - 1];
            assert tail[k] == s[k + 1];
          }
        }
      }
    }
  }

  // A JavaScript `Set` of values, kept as the sequence of its elements in insertion order.

  /** `set.add(x)`: appends `x` unless it is already present. */
  function SetAdd<T(==,!new)>(s: seq<T>, x: T): (r: seq<T>)
    requires Distinct(s)
    ensures Distinct(r)
    ensures forall y :: y in r <==> y in s || y == x
    ensures IsSubsequence(s, r)
  {
    if x in s then
      PrefixIsSubsequence(s, []);
      assert s + [] == s;
      s
    else
      PrefixIsSubsequence(s, [x]);
      s + [x]
  }

  /** `set.delete(x)`: removes `x`, keeping the others in order. */
  function SetDelete<T(==,!new)>(s: seq<T>, x: T): (r: seq<T>)
    requires Distinct(s)
    ensures Distinct(r)
    ensures forall y :: y in r <==> y in s && y != x
    ensures IsSubsequence(r, s)
  {
    FilterDistinct(s, y => y != x);
    FilterIsSubsequence(s, y => y != x);
    Filter(s, y => y != x)
  }

  /** `new Set(xs)`: the elements of `xs` in order of first occurrence. */
  function SetOf<T(==,!new)>(xs: seq<T>): (r: seq<T>)
    ensures Distinct(r)
    ensures forall y :: y in r <==> y in xs
    ensures Distinct(xs) ==> r == xs
  {
    if xs == [] then []
    else
      var init := xs[..|xs| - 1];
      assert xs == init + [xs[|xs| - 1]];
      SetAdd(SetOf(init), xs[|xs| - 1])
  }

  /** A sequence is a subsequence of itself followed by anything. */
  lemma {:induction false} PrefixIsSubsequence<T(!new)>(a: seq<T>, b: seq<T>)
    ensures IsSubsequence(a, a + b)
  {
    if a != [] {
      assert (a + b)[0] == a[0];
      assert (a + b)[1..] == a[1..] + b;
      PrefixIsSubsequence(a[1..], b);
    }
  }
}
