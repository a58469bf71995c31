/** A stable insertion sort over a caller-supplied "at most" relation. It
    stands for the database's ORDER BY: the shopping list is ordered by
    ingredient name and recipe listings newest first. */
module Sorting {
  import opened Seqs

  ghost predicate TotalPreorder<T(!new)>(le: (T, T) -> bool) {
    && (forall a, b :: le(a, b) || le(b, a))
    && (forall a, b, c :: le(a, b) && le(b, c) ==> le(a, c))
  }

  predicate SortedBy<T>(s: seq<T>, le: (T, T) -> bool) {
    forall i, j :: 0 <= i < j < |s| ==> le(s[i], s[j])
  }

  /** Inserts `x` before the first element it is at most. */
  function Insert<T>(x: T, s: seq<T>, le: (T, T) -> bool): seq<T> {
    if s == [] then [x]
    else if le(x, s[0]) then [x] + s
    else [s[0]] + Insert(x, s[1..], le)
  }

  function SortBy<T>(s: seq<T>, le: (T, T) -> bool): seq<T> {
    if s == [] then [] else Insert(s[0], SortBy(s[1..], le), le)
  }

  lemma {:induction false} InsertPermutation<T>(x: T, s: seq<T>, le: (T, T) -> bool)
    ensures multiset(Insert(x, s, le)) == multiset(s) + multiset{x}
  {
    if s != [] && !le(x, s[0]) {
      InsertPermutation(x, s[1..], le);
      assert s == [s[0]] + s[1..];
    }
  }

  /** Sorting reorders and never adds, drops or duplicates an element. */
  lemma {:induction false} SortPermutation<T>(s: seq<T>, le: (T, T) -> bool)
    ensures multiset(SortBy(s, le)) == multiset(s)
    ensures |SortBy(s, le)| == |s|
  {
    if s != [] {
      SortPermutation(s[1..], le);
      InsertPermutation(s[0], SortBy(s[1..], le), le);
      assert s == [s[0]] + s[1..];
    }
  }

  /** Inserting adds `x` and keeps every element already there. */
  lemma InsertElements<T(!new)>(x: T, s: seq<T>, le: (T, T) -> bool)
    ensures forall y :: y in Insert(x, s, le) <==> y == x || y in s
  {
    InsertPermutation(x, s, le);
    forall y ensures y in Insert(x, s, le) <==> y == x || y in s {
      assert y in Insert(x, s, le) <==> y in multiset(Insert(x, s, le));
      assert y in s <==> y in multiset(s);
    }
  }

  /** The head of a sorted sequence is at most each of its elements. */
  lemma HeadAtMostRest<T(!new)>(s: seq<T>, le: (T, T) -> bool)
    requires SortedBy(s, le) && s != []
    ensures forall y :: y in s[1..] ==> le(s[0], y)
  {
    forall y | y in s[1..] ensures le(s[0], y) {
      var k :| 0 <= k < |s[1..]| && s[1..][k] == y;
      assert s[k + 1] == y;
    }
  }

  lemma {:induction false} InsertSorted<T(!new)>(x: T, s: seq<T>, le: (T, T) -> bool)
    requires TotalPreorder(le)
    requires SortedBy(s, le)
    ensures SortedBy(Insert(x, s, le), le)
  {
    if s == [] {
    } else if le(x, s[0]) {
      var r := [x] + s;
      forall i, j | 0 <= i < j < |r| ensures le(r[i], r[j]) {
        if i == 0 {
          assert r[j] == s[j - 1];
          if j > 1 {
            assert le(s[0], s[j - 1]);
          }
        } else {
          assert r[i] == s[i - 1] && r[j] == s[j - 1];
        }
      }
    } else {
      var tail := Insert(x, s[1..], le);
      assert forall y :: y in tail ==> le(s[0], y) by {
        assert le(s[0], x);
        InsertElements(x, s[1..], le);
        HeadAtMostRest(s, le);
      }
      assert SortedBy(tail, le) by {
        InsertSorted(x, s[1..], le);
      }
      var r := [s[0]] + tail;
      forall i, j | 0 <= i < j < |r| ensures le(r[i], r[j]) {
        if i == 0 {
          assert r[j] == tail[j - 1];
        } else {
          assert r[i] == tail[i - 1] && r[j] == tail[j - 1];
        }
      }
    }
  }

  /** The sort's result is ordered by `le` whenever `le` is a total preorder. */
  lemma {:induction false} SortSorted<T(!new)>(s: seq<T>, le: (T, T) -> bool)
    requires TotalPreorder(le)
    ensures SortedBy(SortBy(s, le), le)
  {
    if s != [] {
      SortSorted(s[1..], le);
      InsertSorted(s[0], SortBy(s[1..], le), le);
    }
  }

  /** When `key` tells the elements of `s` apart, it still does after sorting. */
  lemma {:induction false} SortKeepsDistinctKeys<T(!new), K>(s: seq<T>, le: (T, T) -> bool, key: T -> K)
    requires forall i, j :: 0 <= i < j < |s| ==> key(s[i]) != key(s[j])
    ensures forall i, j :: 0 <= i < j < |SortBy(s, le)| ==> key(SortBy(s, le)[i]) != key(SortBy(s, le)[j])
  {
    if s != [] {
      SortKeepsDistinctKeys(s[1..], le, key);
      var r := SortBy(s[1..], le);
      SortPermutation(s[1..], le);
      forall y | y in r ensures key(y) != key(s[0]) {
        assert y in multiset(s[1..]);
        var k :| 0 <= k < |s[1..]| && s[1..][k] == y;
        assert s[k + 1] == y;
      }
      InsertKeepsDistinctKeys(s[0], r, le, key);
    }
  }

  lemma {:induction false} InsertKeepsDistinctKeys<T(!new), K>(x: T, s: seq<T>, le: (T, T) -> bool, key: T -> K)
    requires forall i, j :: 0 <= i < j < |s| ==> key(s[i]) != key(s[j])
    requires forall y :: y in s ==> key(y) != key(x)
    ensures forall i, j :: 0 <= i < j < |Insert(x, s, le)| ==> key(Insert(x, s, le)[i]) != key(Insert(x, s, le)[j])
  {
    var r := Insert(x, s, le);
    if s == [] {
    } else if le(x, s[0]) {
      forall i, j | 0 <= i < j < |r| ensures key(r[i]) != key(r[j]) {
        assert r[j] == s[j - 1];
        if i > 0 {
          assert r[i] == s[i - 1];
        }
      }
    } else {
      var tail := Insert(x, s[1..], le);
      InsertElements(x, s[1..], le);
      forall y | y in tail ensures key(y) != key(s[0]) {
        if y == x {
          assert s[0] in s;
        } else {
          var k :| 0 <= k < |s[1..]| && s[1..][k] == y;
          assert s[k + 1] == y;
        }
      }
      assert forall i, j :: 0 <= i < j < |tail| ==> key(tail[i]) != key(tail[j]) by {
        InsertKeepsDistinctKeys(x, s[1..], le, key);
      }
      forall i, j | 0 <= i < j < |r| ensures key(r[i]) != key(r[j]) {
        if i == 0 {
          assert r[j] == tail[j - 1];
        } else {
          assert r[i] == tail[i - 1] && r[j] == tail[j - 1];
        }
      }
    }
  }

  lemma {:induction false} FilterSorted<T(!new)>(s: seq<T>, le: (T, T) -> bool, p: T -> bool)
    requires SortedBy(s, le)
    ensures SortedBy(Filter(s, p), le)
  {
    if s != [] {
      FilterSorted(s[1..], le, p);
      if p(s[0]) {
        var rest := Filter(s[1..], p);
        var r := [s[0]] + rest;
        forall i, j | 0 <= i < j < |r| ensures le(r[i], r[j]) {
          assert r[j] == rest[j - 1];
          if i == 0 {
            assert rest[j - 1] in s[1..];
            var k :| 0 <= k < |s[1..]| && s[1..][k] == rest[j - 1];
            assert s[k + 1] == rest[j - 1];
          } else {
            assert r[i] == rest[i - 1];
          }
        }
      }
    }
  }
}
