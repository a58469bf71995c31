/** Sequence helpers shared by the table operations: order-preserving
    filtering (a queryset `.filter(...)`) and duplicate-freedom (a unique
    constraint). */
module Seqs {

  predicate NoDuplicates<T(==)>(s: seq<T>) {
    forall i, j :: 0 <= i < j < |s| ==> s[i] != s[j]
  }

  /** The elements of `s` that satisfy `p`, in their original order. */
  function Filter<T(!new)>(s: seq<T>, p: T -> bool): (r: seq<T>)
    ensures |r| <= |s|
    ensures forall x :: x in r <==> x in s && p(x)
  {
    if s == [] then []
    else if p(s[0]) then [s[0]] + Filter(s[1..], p)
    else Filter(s[1..], p)
  }

  lemma {:induction false} FilterAppend<T(!new)>(s: seq<T>, u: seq<T>, p: T -> bool)
    ensures Filter(s + u, p) == Filter(s, p) + Filter(u, p)
  {
    if s == [] {
      assert s + u == u;
    } else {
      assert (s + u)[1..] == s[1..] + u;
      FilterAppend(s[1..], u, p);
    }
  }

  /** Filtering with a predicate every element already satisfies changes nothing. */
  lemma {:induction false} FilterAll<T(!new)>(s: seq<T>, p: T -> bool)
    requires forall x :: x in s ==> p(x)
    ensures Filter(s, p) == s
  {
    if s != [] {
      FilterAll(s[1..], p);
    }
  }

  lemma {:induction false} FilterNoDuplicates<T(!new)>(s: seq<T>, p: T -> bool)
    requires NoDuplicates(s)
    ensures NoDuplicates(Filter(s, p))
  {
    if s != [] {
      FilterNoDuplicates(s[1..], p);
      if p(s[0]) {
        var r := Filter(s[1..], p);
        assert s[0] !in s[1..];
        assert s[0] !in r;
        forall i, j | 0 <= i < j < |[s[0]] + r|
          ensures ([s[0]] + r)[i] != ([s[0]] + r)[j]
        {
          if i > 0 {
            assert ([s[0]] + r)[i] == r[i - 1];
          }
          assert ([s[0]] + r)[j] == r[j - 1];
        }
      }
    }
  }

  /** Filtering twice with the same predicate is filtering once. */
  lemma {:induction false} FilterIdempotent<T(!new)>(s: seq<T>, p: T -> bool)
    ensures Filter(Filter(s, p), p) == Filter(s, p)
  {
    FilterAll(Filter(s, p), p);
  }

  /** `set(s)` in Python. */
  function ElementSet<T>(s: seq<T>): set<T> {
    set x | x in s
  }

  /** A sequence has no duplicates exactly when its set of elements is as
      large as the sequence: the `len(x) != len(set(x))` test of the
      serializers. */
  lemma {:induction false} DistinctIffCardinality<T>(s: seq<T>)
    ensures NoDuplicates(s) <==> |ElementSet(s)| == |s|
  {
    if s == [] {
      assert (set x | x in s) == {};
    } else {
      var rest := set x | x in s[1..];
      assert (set x | x in s) == rest + {s[0]};
      DistinctIffCardinality(s[1..]);
      if s[0] in s[1..] {
        assert rest + {s[0]} == rest;
        assert !NoDuplicates(s) by {
          var k :| 0 <= k < |s[1..]| && s[1..][k] == s[0];
          assert s[0] == s[k + 1];
        }
        assert |rest| <= |s[1..]| by { CardinalityAtMost(s[1..]); }
      } else {
        assert |rest + {s[0]}| == |rest| + 1;
        if NoDuplicates(s[1..]) {
          forall i, j | 0 <= i < j < |s| ensures s[i] != s[j] {
            if i == 0 {
              assert s[j] == s[1..][j - 1];
            } else {
              assert s[i] == s[1..][i - 1] && s[j] == s[1..][j - 1];
            }
          }
        } else {
          assert !NoDuplicates(s) by {
            var i, j :| 0 <= i < j < |s[1..]| && s[1..][i] == s[1..][j];
            assert s[i + 1] == s[j + 1];
          }
        }
      }
    }
  }

  lemma {:induction false} CardinalityAtMost<T>(s: seq<T>)
    ensures |ElementSet(s)| <= |s|
  {
    if s == [] {
      assert (set x | x in s) == {};
    } else {
      var rest := set x | x in s[1..];
      assert (set x | x in s) == rest + {s[0]};
      assert |rest + {s[0]}| <= |rest| + 1;
      CardinalityAtMost(s[1..]);
    }
  }

  /** Filtering with a predicate no element satisfies leaves nothing. */
  lemma {:induction false} FilterNone<T(!new)>(s: seq<T>, p: T -> bool)
    requires forall x :: x in s ==> !p(x)
    ensures Filter(s, p) == []
  {
    if s != [] {
      FilterNone(s[1..], p);
    }
  }

  /** Filtering by a weaker predicate first does not change a filter by a stronger one. */
  lemma {:induction false} FilterFilter<T(!new)>(s: seq<T>, p: T -> bool, q: T -> bool)
    requires forall x :: q(x) ==> p(x)
    ensures Filter(Filter(s, p), q) == Filter(s, q)
  {
    if s != [] {
      FilterFilter(s[1..], p, q);
    }
  }

  /** Two filters can be applied in either order. */
  lemma {:induction false} FilterCommute<T(!new)>(s: seq<T>, p: T -> bool, q: T -> bool)
    ensures Filter(Filter(s, p), q) == Filter(Filter(s, q), p)
  {
    if s != [] {
      FilterCommute(s[1..], p, q);
    }
  }
}
