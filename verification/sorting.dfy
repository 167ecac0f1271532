/** `ORDER BY key DESC` as an insertion sort over sequences. SQL leaves the order of
    equal keys open; this sort is one of the orders it may produce. */
module Sorting {
  import opened Basics

  /** Non-increasing by `key`. */
  predicate SortedDesc<T>(s: seq<T>, key: T -> int)
  {
    forall i, j :: 0 <= i < j < |s| ==> key(s[i]) >= key(s[j])
  }

  /** Inserts `x` in front of the first element whose key is smaller. */
  function InsertDesc<T>(x: T, s: seq<T>, key: T -> int): (r: seq<T>)
    ensures |r| == |s| + 1
  {
    if s == [] || key(s[0]) <= key(x) then [x] + s
    else [s[0]] + InsertDesc(x, s[1..], key)
  }

  /** Inserting adds exactly one `x`. */
  lemma {:induction false} InsertDescMultiset<T>(x: T, s: seq<T>, key: T -> int)
    ensures multiset(InsertDesc(x, s, key)) == multiset(s) + multiset{x}
  {
    if s != [] && key(s[0]) > key(x) {
      InsertDescMultiset(x, s[1..], key);
      assert s == [s[0]] + s[1..];
    }
  }

  /** A bound on every key of `s` and on `x` bounds every key after inserting. */
  lemma InsertDescBounded<T>(x: T, s: seq<T>, key: T -> int, bound: int)
    requires key(x) <= bound
    requires forall i :: 0 <= i < |s| ==> key(s[i]) <= bound
    ensures forall i :: 0 <= i < |InsertDesc(x, s, key)| ==> key(InsertDesc(x, s, key)[i]) <= bound
  {
    var r := InsertDesc(x, s, key);
    forall i | 0 <= i < |r| ensures key(r[i]) <= bound {
      InsertDescMembers(x, s, key);
      assert r[i] in r;
      if r[i] != x {
        var m :| 0 <= m < |s| && s[m] == r[i];
      }
    }
  }

  /** Inserting into a sorted sequence keeps it sorted. */
  lemma {:induction false} InsertDescSorted<T>(x: T, s: seq<T>, key: T -> int)
    requires SortedDesc(s, key)
    ensures SortedDesc(InsertDesc(x, s, key), key)
  {
    var r := InsertDesc(x, s, key);
    if s == [] || key(s[0]) <= key(x) {
      assert r == [x] + s;
      forall i, j | 0 <= i < j < |r| ensures key(r[i]) >= key(r[j]) {
        assert r[j] == s[j - 1];
        if i > 0 {
          assert r[i] == s[i - 1];
        }
      }
    } else {
      var head, rest := s[0], s[1..];
      var tail := InsertDesc(x, rest, key);
      assert r == [head] + tail;
      assert forall i :: 0 <= i < |rest| ==> key(rest[i]) <= key(head) && rest[i] == s[i + 1];
      InsertDescSorted(x, rest, key);
      InsertDescBounded(x, rest, key, key(head));
      forall i, j | 0 <= i < j < |r| ensures key(r[i]) >= key(r[j]) {
        assert r[j] == tail[j - 1];
        if i > 0 {
          assert r[i] == tail[i - 1];
        }
      }
    }
  }

  /** The rows of `s`, ordered by `key`, highest first. */
  function SortDesc<T>(s: seq<T>, key: T -> int): (r: seq<T>)
    ensures SortedDesc(r, key)
    ensures multiset(r) == multiset(s)
  {
    if s == [] then []
    else
      var sortedRest := SortDesc(s[1..], key);
      InsertDescSorted(s[0], sortedRest, key);
      InsertDescMultiset(s[0], sortedRest, key);
      assert s == [s[0]] + s[1..];
      InsertDesc(s[0], sortedRest, key)
  }

  /** Sorting keeps exactly the same elements. */
  lemma SortDescMembers<T>(s: seq<T>, key: T -> int)
    ensures forall x :: x in SortDesc(s, key) <==> x in s
  {
    var r := SortDesc(s, key);
    forall x ensures x in r <==> x in s {
      assert x in r <==> x in multiset(r);
      assert x in s <==> x in multiset(s);
    }
  }

  /** Summing over a one-element sequence. */
  lemma SumOfCons<T>(x: T, s: seq<T>, f: T -> int)
    ensures SumOf([x] + s, f) == f(x) + SumOf(s, f)
  {
    SumOfAppend([x], s, f);
    assert SumOf([x], f) == f(x) by { assert [x][..0] == []; }
  }

  lemma {:induction false} InsertDescSum<T>(x: T, s: seq<T>, key: T -> int, f: T -> int)
    requires SortedDesc(s, key)
    ensures SumOf(InsertDesc(x, s, key), f) == SumOf(s, f) + f(x)
  {
    if s == [] || key(s[0]) <= key(x) {
      SumOfCons(x, s, f);
    } else {
      var head, rest := s[0], s[1..];
      var tail := InsertDesc(x, rest, key);
      assert InsertDesc(x, s, key) == [head] + tail;
      assert SumOf(tail, f) == SumOf(rest, f) + f(x) by {
        InsertDescSum(x, rest, key, f);
      }
      SumOfCons(head, tail, f);
      assert SumOf(s, f) == f(head) + SumOf(rest, f) by {
        assert s == [head] + rest;
        SumOfCons(head, rest, f);
      }
    }
  }

  /** Sorting changes no sum over the rows. */
  lemma {:induction false} SortDescSum<T>(s: seq<T>, key: T -> int, f: T -> int)
    ensures SumOf(SortDesc(s, key), f) == SumOf(s, f)
  {
    if s != [] {
      var x, rest := s[0], s[1..];
      var sortedRest := SortDesc(rest, key);
      assert SortDesc(s, key) == InsertDesc(x, sortedRest, key);
      assert SumOf(sortedRest, f) == SumOf(rest, f) by {
        SortDescSum(rest, key, f);
      }
      InsertDescSum(x, sortedRest, key, f);
      assert SumOf(s, f) == f(x) + SumOf(rest, f) by {
        assert s == [x] + rest;
        SumOfCons(x, rest, f);
      }
    }
  }

  /** No two elements share a value of `f`. */
  ghost predicate DistinctBy<T, K>(s: seq<T>, f: T -> K)
  {
    forall i, j :: 0 <= i < j < |s| ==> f(s[i]) != f(s[j])
  }

  lemma {:induction false} InsertDescDistinct<T, K>(x: T, s: seq<T>, key: T -> int, f: T -> K)
    requires DistinctBy(s, f)
    requires forall y :: y in s ==> f(y) != f(x)
    ensures DistinctBy(InsertDesc(x, s, key), f)
  {
    var r := InsertDesc(x, s, key);
    if s == [] || key(s[0]) <= key(x) {
      assert r == [x] + s;
      forall i, j | 0 <= i < j < |r| ensures f(r[i]) != f(r[j]) {
        assert r[j] == s[j - 1];
        if i > 0 {
          assert r[i] == s[i - 1];
        }
      }
    } else {
      var head, rest := s[0], s[1..];
      var tail := InsertDesc(x, rest, key);
      assert r == [head] + tail;
      assert DistinctBy(tail, f) by {
        assert forall i :: 0 <= i < |rest| ==> rest[i] == s[i + 1];
        assert forall y :: y in rest ==> y in s;
        InsertDescDistinct(x, rest, key, f);
      }
      assert forall i :: 0 <= i < |tail| ==> f(tail[i]) != f(head) by {
        forall i | 0 <= i < |tail| ensures f(tail[i]) != f(head) {
          InsertDescMembers(x, rest, key);
          assert tail[i] in tail;
          if tail[i] != x {
            var m :| 0 <= m < |rest| && rest[m] == tail[i];
            assert s[m + 1] == tail[i];
          }
        }
      }
      forall i, j | 0 <= i < j < |r| ensures f(r[i]) != f(r[j]) {
        assert r[j] == tail[j - 1];
        if i > 0 {
          assert r[i] == tail[i - 1];
        }
      }
    }
  }

  /** Every element of the result is `x` or came from `s`, sorted or not. */
  lemma {:induction false} InsertDescMembers<T>(x: T, s: seq<T>, key: T -> int)
    ensures forall y :: y in InsertDesc(x, s, key) ==> y == x || y in s
  {
    if s != [] && key(s[0]) > key(x) {
      InsertDescMembers(x, s[1..], key);
      assert InsertDesc(x, s, key) == [s[0]] + InsertDesc(x, s[1..], key);
      assert forall y :: y in s[1..] ==> y in s;
    }
  }

  /** Sorting keeps elements distinct by `f`. */
  lemma {:induction false} SortDescDistinct<T, K>(s: seq<T>, key: T -> int, f: T -> K)
    requires DistinctBy(s, f)
    ensures DistinctBy(SortDesc(s, key), f)
  {
    if s != [] {
      var rest := SortDesc(s[1..], key);
      SortDescDistinct(s[1..], key, f);
      forall y | y in rest ensures f(y) != f(s[0]) {
        assert y in multiset(rest);
        var m :| 0 <= m < |s[1..]| && s[1..][m] == y;
        assert s[m + 1] == y;
      }
      InsertDescDistinct(s[0], rest, key, f);
    }
  }

  /** `LIMIT n`: at most n leading rows; SQLite reads a negative limit as "no limit". */
  function Limit<T>(s: seq<T>, n: int): (r: seq<T>)
    ensures n < 0 ==> r == s
    ensures 0 <= n ==> |r| == (if n < |s| then n else |s|)
    ensures r <= s
  {
    if n < 0 || n >= |s| then s else s[..n]
  }
}
