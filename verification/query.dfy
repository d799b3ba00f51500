/** Queries over a table held as a sequence of rows: the model of the ORM's
    `objects.filter(...)` and `objects.get(...)`. */
module Query {
  import opened Optional

  /** `objects.get` raises this when more than one row matches. */
  datatype LookupError = MultipleObjectsReturned

  /** No two rows of `s` share a key. */
  predicate DistinctBy<T, K(==)>(s: seq<T>, key: T -> K) {
    forall i, j :: 0 <= i < j < |s| ==> key(s[i]) != key(s[j])
  }

  /** At most one row of `s` satisfies `p`. */
  predicate AtMostOne<T>(s: seq<T>, p: T -> bool) {
    forall i, j :: 0 <= i < |s| && 0 <= j < |s| && p(s[i]) && p(s[j]) ==> i == j
  }

  /** The rows satisfying `p`, in table order (`objects.filter`); see
      `FilterCounts` and `FilterAppend`. */
  function Filter<T(!new)>(s: seq<T>, p: T -> bool): (r: seq<T>)
    ensures |r| <= |s|
    ensures forall x :: x in r <==> x in s && p(x)
    ensures (forall i :: 0 <= i < |s| ==> p(s[i])) ==> r == s
    ensures |r| == 0 <==> forall i :: 0 <= i < |s| ==> !p(s[i])
  {
    if |s| == 0 then []
    else if p(s[0]) then [s[0]] + Filter(s[1..], p)
    else Filter(s[1..], p)
  }

  /** The filter keeps every matching row as often as the table holds it, and no other. */
  lemma {:induction false} FilterCounts<T(!new)>(s: seq<T>, p: T -> bool)
    ensures forall x :: multiset(Filter(s, p))[x] == (if p(x) then multiset(s)[x] else 0)
  {
    if |s| > 0 {
      assert s == [s[0]] + s[1..];
      FilterCounts(s[1..], p);
    }
  }

  /** Filtering keeps table order: it distributes over concatenation. */
  lemma {:induction false} FilterAppend<T(!new)>(s1: seq<T>, s2: seq<T>, p: T -> bool)
    ensures Filter(s1 + s2, p) == Filter(s1, p) + Filter(s2, p)
  {
    if |s1| > 0 {
      assert (s1 + s2)[1..] == s1[1..] + s2;
      FilterAppend(s1[1..], s2, p);
    } else {
      assert s1 + s2 == s2;
    }
  }

  /** Two distinct matching rows leave at least two rows after filtering. */
  lemma {:induction false} FilterOfTwoMatches<T(!new)>(s: seq<T>, p: T -> bool, i: int, j: int)
    requires 0 <= i < j < |s| && p(s[i]) && p(s[j])
    ensures |Filter(s, p)| >= 2
  {
    var t := s[1..];
    if i == 0 {
      assert t[j - 1] == s[j];
    } else {
      assert t[i - 1] == s[i] && t[j - 1] == s[j];
      FilterOfTwoMatches(t, p, i - 1, j - 1);
    }
  }

  /** The first row satisfying `p`, if any. */
  function Find<T>(s: seq<T>, p: T -> bool): (r: Option<T>)
    ensures r.Some? <==> exists i :: 0 <= i < |s| && p(s[i])
    ensures r.Some? ==> r.value in s && p(r.value)
    ensures r.Some? ==> exists i :: 0 <= i < |s| && s[i] == r.value && forall j :: 0 <= j < i ==> !p(s[j])
  {
    if |s| == 0 then None
    else if p(s[0]) then Some(s[0])
    else Find(s[1..], p)
  }

  /** `objects.get`: the single matching row, `None` for no match (the caller's
      `DoesNotExist` handler), and the uncaught error for several matches. */
  function GetOne<T(!new)>(s: seq<T>, p: T -> bool): (r: Result<Option<T>, LookupError>)
    ensures r == Ok(None) <==> forall i :: 0 <= i < |s| ==> !p(s[i])
    ensures r.Ok? && r.value.Some? ==> r.value.value in s && p(r.value.value)
    ensures r.Err? <==> !AtMostOne(s, p)
  {
    var matches := Filter(s, p);
    FilterOfAtMostOne(s, p);
    if |matches| == 0 then Ok(None)
    else if |matches| == 1 then Ok(Some(matches[0]))
    else Err(MultipleObjectsReturned)
  }

  /** At most one row matches exactly when the filter returns at most one row. */
  lemma {:induction false} FilterOfAtMostOne<T(!new)>(s: seq<T>, p: T -> bool)
    ensures AtMostOne(s, p) <==> |Filter(s, p)| <= 1
  {
    if !AtMostOne(s, p) {
      var i, j :| 0 <= i < |s| && 0 <= j < |s| && p(s[i]) && p(s[j]) && i != j;
      if i < j {
        FilterOfTwoMatches(s, p, i, j);
      } else {
        FilterOfTwoMatches(s, p, j, i);
      }
    } else if |s| > 0 {
      var t := s[1..];
      forall i, j | 0 <= i < |t| && 0 <= j < |t| && p(t[i]) && p(t[j])
        ensures i == j
      {
        assert s[i + 1] == t[i] && s[j + 1] == t[j];
      }
      FilterOfAtMostOne(t, p);
      if p(s[0]) {
        forall k | 0 <= k < |t|
          ensures !p(t[k])
        {
          assert s[k + 1] == t[k];
        }
      }
    }
  }

  /** Two matching rows of a table where at most one row matches are the same row. */
  lemma AtMostOneMatch<T>(s: seq<T>, p: T -> bool, x: T, y: T)
    requires AtMostOne(s, p)
    requires x in s && p(x) && y in s && p(y)
    ensures x == y
  {
  }

  /** A unique key singles out at most one row. */
  lemma DistinctKeyIsAtMostOne<T, K>(s: seq<T>, key: T -> K, k: K)
    ensures DistinctBy(s, key) ==> AtMostOne(s, (x: T) => key(x) == k)
  {
  }

  /** In a table with a unique key, no later row shares the first row's key. */
  lemma FirstKeyIsFresh<T, K>(s: seq<T>, key: T -> K, x: T)
    requires |s| > 0 && DistinctBy(s, key) && x in s[1..]
    ensures key(s[0]) != key(x)
  {
    var k :| 0 <= k < |s| - 1 && s[1..][k] == x;
    assert s[k + 1] == x;
  }

  /** Filtering a table with a unique key keeps the key unique. */
  lemma {:induction false} FilterKeepsDistinct<T(!new), K>(s: seq<T>, p: T -> bool, key: T -> K)
    ensures DistinctBy(s, key) ==> DistinctBy(Filter(s, p), key)
  {
    if |s| > 0 && DistinctBy(s, key) {
      var t := s[1..];
      assert DistinctBy(t, key) by {
        forall i, j | 0 <= i < j < |t|
          ensures key(t[i]) != key(t[j])
        {
          assert t[i] == s[i + 1] && t[j] == s[j + 1];
        }
      }
      FilterKeepsDistinct(t, p, key);
      if p(s[0]) {
        var rest := Filter(t, p);
        var r := [s[0]] + rest;
        forall i, j | 0 <= i < j < |r|
          ensures key(r[i]) != key(r[j])
        {
          assert r[j] == rest[j - 1];
          if i == 0 {
            assert rest[j - 1] in rest;
            FirstKeyIsFresh(s, key, rest[j - 1]);
          } else {
            assert r[i] == rest[i - 1];
          }
        }
      }
    }
  }
}
