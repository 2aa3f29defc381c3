/**
 * Tables as sequences of rows in storage order, and the three things the pages
 * ask of a SELECT: a WHERE filter, an ORDER BY on an integer column, and the
 * uniqueness of a column.
 */
module Query {
  import opened Base

  /** `fetch()` on `SELECT ... WHERE keep(row)`: the first row that passes, if any. */
  function First<T>(s: seq<T>, keep: T -> bool): (r: Option<T>)
    ensures r.None? <==> forall i :: 0 <= i < |s| ==> !keep(s[i])
    ensures r.Some? ==> exists i :: 0 <= i < |s| && s[i] == r.value && keep(s[i]) && forall j :: 0 <= j < i ==> !keep(s[j])
  {
    if s == [] then None
    else if keep(s[0]) then Some(s[0])
    else First(s[1..], keep)
  }

  /** A row appended after rows none of which is kept is the first kept one. */
  lemma FirstAppended<T>(s: seq<T>, x: T, keep: T -> bool)
    requires forall i :: 0 <= i < |s| ==> !keep(s[i])
    requires keep(x)
    ensures First(s + [x], keep) == Some(x)
  {
    var t := s + [x];
    assert t[|s|] == x;
    forall i | 0 <= i < |s|
      ensures !keep(t[i])
    {
      assert t[i] == s[i];
    }
  }

  /** Under a unique key, the first row with that key is the only one. */
  lemma FirstUnique<T, K>(s: seq<T>, key: T -> K, k: K, i: int)
    requires DistinctBy(s, key) && 0 <= i < |s| && key(s[i]) == k
    ensures First(s, (x: T) => key(x) == k) == Some(s[i])
  {
    var r := First(s, (x: T) => key(x) == k);
    var j :| 0 <= j < |s| && s[j] == r.value && key(s[j]) == k && forall m :: 0 <= m < j ==> key(s[m]) != k;
  }

  /** `SELECT ... WHERE keep(row)`: the rows that pass, in table order. */
  function Where<T(!new)>(s: seq<T>, keep: T -> bool): (r: seq<T>)
    ensures |r| <= |s|
    ensures forall x :: x in r <==> x in s && keep(x)
    ensures multiset(r) <= multiset(s)
  {
    if s == [] then []
    else
      assert s == [s[0]] + s[1..];
      if keep(s[0]) then [s[0]] + Where(s[1..], keep) else Where(s[1..], keep)
  }

  /** Two filters that agree on every row of the table select the same rows. */
  lemma {:induction false} WhereCongruent<T(!new)>(s: seq<T>, p: T -> bool, q: T -> bool)
    requires forall x :: x in s ==> p(x) == q(x)
    ensures Where(s, p) == Where(s, q)
  {
    if s != [] {
      assert forall x :: x in s[1..] ==> x in s;
      WhereCongruent(s[1..], p, q);
    }
  }

  /** Two filters that never both hold and each imply a third select no more rows together than the third. */
  lemma {:induction false} WhereDisjointCount<T(!new)>(s: seq<T>, a: T -> bool, b: T -> bool, c: T -> bool)
    requires forall x :: x in s ==> !(a(x) && b(x)) && (a(x) ==> c(x)) && (b(x) ==> c(x))
    ensures |Where(s, a)| + |Where(s, b)| <= |Where(s, c)|
  {
    if s != [] {
      assert forall x :: x in s[1..] ==> x in s;
      WhereDisjointCount(s[1..], a, b, c);
    }
  }

  /** A filter that implies another selects no more rows. */
  lemma {:induction false} WhereMonotone<T(!new)>(s: seq<T>, a: T -> bool, c: T -> bool)
    requires forall x :: x in s ==> (a(x) ==> c(x))
    ensures |Where(s, a)| <= |Where(s, c)|
  {
    if s != [] {
      assert forall x :: x in s[1..] ==> x in s;
      WhereMonotone(s[1..], a, c);
    }
  }

  /** Rows in non-decreasing order of `key`. */
  ghost predicate SortedBy<T>(s: seq<T>, key: T -> int) {
    forall i, j :: 0 <= i < j < |s| ==> key(s[i]) <= key(s[j])
  }

  /** Places `x` before the first row whose key is not smaller, which keeps the rows sorted. */
  function InsertBy<T>(x: T, s: seq<T>, key: T -> int): (r: seq<T>)
    requires SortedBy(s, key)
    ensures SortedBy(r, key)
    ensures multiset(r) == multiset(s) + multiset{x}
  {
    if s == [] then [x]
    else if key(x) <= key(s[0]) then [x] + s
    else
      var tail := InsertBy(x, s[1..], key);
      assert multiset(s) == multiset{s[0]} + multiset(s[1..]) by { assert s == [s[0]] + s[1..]; }
      assert forall y :: y in tail ==> key(s[0]) <= key(y) by {
        forall y | y in tail ensures key(s[0]) <= key(y) {
          assert y in multiset(tail);
          assert y == x || y in multiset(s[1..]);
        }
      }
      [s[0]] + tail
  }

  /** `ORDER BY key ASC`: a sorted permutation of the rows (insertion sort). */
  function SortBy<T>(s: seq<T>, key: T -> int): (r: seq<T>)
    ensures SortedBy(r, key)
    ensures |r| == |s|
    ensures multiset(r) == multiset(s)
  {
    if s == [] then []
    else
      assert s == [s[0]] + s[1..];
      var r := InsertBy(s[0], SortBy(s[1..], key), key);
      assert |r| == |multiset(r)|;
      r
  }

  /** No two rows share a value of `key` (a UNIQUE column). */
  ghost predicate DistinctBy<T, K>(s: seq<T>, key: T -> K) {
    forall i, j :: 0 <= i < |s| && 0 <= j < |s| && i != j ==> key(s[i]) != key(s[j])
  }

  /** Deleting rows keeps a column unique. */
  lemma {:induction false} WhereKeepsDistinct<T(!new), K>(s: seq<T>, keep: T -> bool, key: T -> K)
    requires DistinctBy(s, key)
    ensures DistinctBy(Where(s, keep), key)
  {
    if s != [] {
      var tail := Where(s[1..], keep);
      assert DistinctBy(s[1..], key) by {
        forall i, j | 0 <= i < |s| - 1 && 0 <= j < |s| - 1 && i != j
          ensures key(s[1..][i]) != key(s[1..][j])
        {
          assert s[1..][i] == s[i + 1] && s[1..][j] == s[j + 1];
        }
      }
      WhereKeepsDistinct(s[1..], keep, key);
      if keep(s[0]) {
        forall y | y in tail ensures key(y) != key(s[0]) {
          assert y in s[1..];
          var k :| 0 <= k < |s| - 1 && s[1..][k] == y;
          assert s[k + 1] == y;
        }
        var r := [s[0]] + tail;
        forall i, j | 0 <= i < |r| && 0 <= j < |r| && i != j ensures key(r[i]) != key(r[j]) {
          if i > 0 && j > 0 {
            assert r[i] == tail[i - 1] && r[j] == tail[j - 1];
          } else if i == 0 {
            assert r[j] == tail[j - 1] && r[j] in tail;
          } else {
            assert r[i] == tail[i - 1] && r[i] in tail;
          }
        }
      }
    }
  }

  /** Appending a row whose key no existing row has keeps a column unique. */
  lemma AppendKeepsDistinct<T, K>(s: seq<T>, x: T, key: T -> K)
    requires DistinctBy(s, key)
    requires forall i :: 0 <= i < |s| ==> key(s[i]) != key(x)
    ensures DistinctBy(s + [x], key)
  {
    var r := s + [x];
    forall i, j | 0 <= i < |r| && 0 <= j < |r| && i != j ensures key(r[i]) != key(r[j]) {
      if i < |s| && j < |s| {
        assert r[i] == s[i] && r[j] == s[j];
      }
    }
  }
}
