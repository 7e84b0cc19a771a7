/**
 * usort with a comparator that returns strcmp of a string key of each element:
 * both pages sort a configuration list this way (users by name, allowed
 * hostnames by the UTF-8 form of the hostname). PHP 8's sort is stable; the
 * model sorts by insertion, which is stable as well.
 */
module Sorting {
  import opened Php

  /** Every element is ordered before every later one. */
  ghost predicate SortedBy<T>(s: seq<T>, key: T -> string)
  {
    forall i, j :: 0 <= i < j < |s| ==> StrLeq(key(s[i]), key(s[j]))
  }

  /** Every element is ordered before its successor. */
  ghost predicate Chained<T>(s: seq<T>, key: T -> string)
  {
    forall i :: 0 <= i < |s| - 1 ==> StrLeq(key(s[i]), key(s[i + 1]))
  }

  lemma {:induction false} ChainedIsSorted<T>(s: seq<T>, key: T -> string)
    requires Chained(s, key)
    ensures SortedBy(s, key)
  {
    if |s| > 1 {
      assert Chained(s[1..], key) by {
        forall i | 0 <= i < |s[1..]| - 1 ensures StrLeq(key(s[1..][i]), key(s[1..][i + 1])) {
          assert s[1..][i] == s[i + 1] && s[1..][i + 1] == s[i + 2];
        }
      }
      ChainedIsSorted(s[1..], key);
      forall i, j | 0 <= i < j < |s| ensures StrLeq(key(s[i]), key(s[j])) {
        if i == 0 && j > 1 {
          assert s[1..][0] == s[1] && s[1..][j - 1] == s[j];
          StrLeqTransitive(key(s[0]), key(s[1]), key(s[j]));
        } else if i > 0 {
          assert s[1..][i - 1] == s[i] && s[1..][j - 1] == s[j];
        }
      }
    }
  }

  /** Inserts x before the first element that does not sort below it. */
  function Insert<T>(x: T, s: seq<T>, key: T -> string): (r: seq<T>)
    requires Chained(s, key)
    ensures Chained(r, key)
    ensures |r| == |s| + 1
    ensures r[0] == x || (s != [] && r[0] == s[0])
  {
    if s == [] then [x]
    else if StrLeq(key(x), key(s[0])) then [x] + s
    else
      StrLeqTotal(key(x), key(s[0]));
      assert Chained(s[1..], key) by {
        forall i | 0 <= i < |s[1..]| - 1 ensures StrLeq(key(s[1..][i]), key(s[1..][i + 1])) {
          assert s[1..][i] == s[i + 1] && s[1..][i + 1] == s[i + 2];
        }
      }
      [s[0]] + Insert(x, s[1..], key)
  }

  /** Insertion adds exactly x. */
  lemma {:induction false} InsertPermutes<T>(x: T, s: seq<T>, key: T -> string)
    requires Chained(s, key)
    ensures multiset(Insert(x, s, key)) == multiset(s) + multiset{x}
  {
    if s != [] && !StrLeq(key(x), key(s[0])) {
      assert Chained(s[1..], key) by {
        forall i | 0 <= i < |s[1..]| - 1 ensures StrLeq(key(s[1..][i]), key(s[1..][i + 1])) {
          assert s[1..][i] == s[i + 1] && s[1..][i + 1] == s[i + 2];
        }
      }
      InsertPermutes(x, s[1..], key);
      assert s == [s[0]] + s[1..];
    }
  }

  /** usort: the result is ordered by the key. */
  function SortBy<T>(s: seq<T>, key: T -> string): (r: seq<T>)
    ensures Chained(r, key)
    ensures SortedBy(r, key)
    ensures |r| == |s|
  {
    if s == [] then []
    else
      var r := Insert(s[0], SortBy(s[1..], key), key);
      ChainedIsSorted(r, key);
      r
  }

  /** usort only reorders: the result is a permutation of the input. */
  lemma {:induction false} SortByPermutes<T>(s: seq<T>, key: T -> string)
    ensures multiset(SortBy(s, key)) == multiset(s)
  {
    if s != [] {
      SortByPermutes(s[1..], key);
      InsertPermutes(s[0], SortBy(s[1..], key), key);
      assert s == [s[0]] + s[1..];
    }
  }

  /** A permutation keeps exactly the same elements. */
  lemma SortByKeepsElements<T>(s: seq<T>, key: T -> string, x: T)
    ensures x in SortBy(s, key) <==> x in s
  {
    SortByPermutes(s, key);
    var r := SortBy(s, key);
    assert x in r <==> x in multiset(r);
    assert x in s <==> x in multiset(s);
  }

  /** No two elements share a value of f. */
  ghost predicate DistinctBy<T, K>(s: seq<T>, f: T -> K)
  {
    forall i, j :: 0 <= i < j < |s| ==> f(s[i]) != f(s[j])
  }

  lemma ChainedTail<T>(s: seq<T>, key: T -> string)
    requires s != [] && Chained(s, key)
    ensures Chained(s[1..], key)
  {
    forall i | 0 <= i < |s[1..]| - 1 ensures StrLeq(key(s[1..][i]), key(s[1..][i + 1])) {
      assert s[1..][i] == s[i + 1] && s[1..][i + 1] == s[i + 2];
    }
  }

  lemma DistinctTail<T, K>(s: seq<T>, f: T -> K)
    requires s != [] && DistinctBy(s, f)
    ensures DistinctBy(s[1..], f)
  {
    forall i, j | 0 <= i < j < |s[1..]| ensures f(s[1..][i]) != f(s[1..][j]) {
      assert s[1..][i] == s[i + 1] && s[1..][j] == s[j + 1];
    }
  }

  /** Putting x in front of a list none of whose f-values is f(x) keeps the values distinct. */
  lemma ConsDistinct<T, K>(x: T, s: seq<T>, f: T -> K)
    requires DistinctBy(s, f)
    requires forall j :: 0 <= j < |s| ==> f(s[j]) != f(x)
    ensures DistinctBy([x] + s, f)
  {
    var r := [x] + s;
    forall i, j | 0 <= i < j < |r| ensures f(r[i]) != f(r[j]) {
      assert r[j] == s[j - 1];
      if i > 0 {
        assert r[i] == s[i - 1];
      }
    }
  }

  /** Inserting an element whose f-value is new keeps the f-values distinct. */
  lemma {:induction false} InsertDistinct<T, K>(x: T, s: seq<T>, key: T -> string, f: T -> K)
    requires Chained(s, key) && DistinctBy(s, f)
    requires forall j :: 0 <= j < |s| ==> f(s[j]) != f(x)
    ensures DistinctBy(Insert(x, s, key), f)
  {
    if s == [] || StrLeq(key(x), key(s[0])) {
      ConsDistinct(x, s, f);
    } else {
      ChainedTail(s, key);
      DistinctTail(s, f);
      assert forall j :: 0 <= j < |s[1..]| ==> s[1..][j] == s[j + 1];
      InsertDistinct(x, s[1..], key, f);
      var rest := Insert(x, s[1..], key);
      InsertPermutes(x, s[1..], key);
      forall j | 0 <= j < |rest| ensures f(rest[j]) != f(s[0]) {
        assert rest[j] in multiset(rest);
        if rest[j] != x {
          assert rest[j] in multiset(s[1..]);
          var k :| 0 <= k < |s[1..]| && s[1..][k] == rest[j];
          assert rest[j] == s[k + 1];
        }
      }
      ConsDistinct(s[0], rest, f);
    }
  }

  /** Sorting keeps distinct f-values distinct. */
  lemma {:induction false} SortByDistinct<T, K>(s: seq<T>, key: T -> string, f: T -> K)
    requires DistinctBy(s, f)
    ensures DistinctBy(SortBy(s, key), f)
  {
    if s != [] {
      DistinctTail(s, f);
      SortByDistinct(s[1..], key, f);
      var r := SortBy(s[1..], key);
      forall j | 0 <= j < |r| ensures f(r[j]) != f(s[0]) {
        SortByKeepsElements(s[1..], key, r[j]);
        var k :| 0 <= k < |s[1..]| && s[1..][k] == r[j];
        assert r[j] == s[k + 1];
      }
      InsertDistinct(s[0], r, key, f);
    }
  }
}
