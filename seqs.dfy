/** Sequence operations used to model the document collections: a collection is a
    sequence of records, a derived query is a search or a filter over it, and a unique
    index is a key that no two records share. */
module Seqs {
  import opened Lang

  /** The records of `s` that `keep` accepts, in their original order. */
  function Filter<T>(s: seq<T>, keep: T -> bool): (r: seq<T>)
    ensures |r| <= |s|
    ensures forall i :: 0 <= i < |r| ==> r[i] in s && keep(r[i])
    ensures forall i :: 0 <= i < |s| && keep(s[i]) ==> s[i] in r
  {
    if s == [] then []
    else if keep(s[0]) then [s[0]] + Filter(s[1..], keep)
    else Filter(s[1..], keep)
  }

  /** The position of the first record satisfying `p`, if any. */
  function IndexWhere<T>(s: seq<T>, p: T -> bool): (r: Option<nat>)
    ensures r.Some? ==> r.value < |s| && p(s[r.value])
    ensures r.Some? ==> forall j :: 0 <= j < r.value ==> !p(s[j])
    ensures r.None? <==> forall j :: 0 <= j < |s| ==> !p(s[j])
  {
    if s == [] then None
    else if p(s[0]) then Some(0)
    else match IndexWhere(s[1..], p)
      case None => None
      case Some(k) => Some(k + 1)
  }

  /** The first record satisfying `p`, if any. */
  function Find<T>(s: seq<T>, p: T -> bool): (r: Option<T>)
    ensures r.Some? ==> r.value in s && p(r.value)
    ensures r.None? <==> forall i :: 0 <= i < |s| ==> !p(s[i])
  {
    match IndexWhere(s, p)
    case None => None
    case Some(i) => Some(s[i])
  }

  /** No two records of `s` have the same `key` (a unique index on that key). */
  ghost predicate UniqueBy<T, K>(s: seq<T>, key: T -> K) {
    forall i, j :: 0 <= i < j < |s| ==> key(s[i]) != key(s[j])
  }

  /** Filtering keeps a unique index unique. */
  lemma {:induction false} FilterKeepsUniqueBy<T, K>(s: seq<T>, keep: T -> bool, key: T -> K)
    requires UniqueBy(s, key)
    ensures UniqueBy(Filter(s, keep), key)
  {
    if s != [] {
      var rest := Filter(s[1..], keep);
      assert UniqueBy(s[1..], key) by {
        forall i, j | 0 <= i < j < |s[1..]| ensures key(s[1..][i]) != key(s[1..][j]) {
          assert s[1..][i] == s[i + 1] && s[1..][j] == s[j + 1];
        }
      }
      FilterKeepsUniqueBy(s[1..], keep, key);
      if keep(s[0]) {
        forall y | y in rest ensures key(y) != key(s[0]) {
          var j :| 0 <= j < |s[1..]| && s[1..][j] == y;
          assert s[j + 1] == y;
        }
        AppendFrontKeepsUniqueBy(s[0], rest, key);
      }
    }
  }

  lemma AppendFrontKeepsUniqueBy<T, K>(x: T, s: seq<T>, key: T -> K)
    requires UniqueBy(s, key)
    requires forall j :: 0 <= j < |s| ==> key(s[j]) != key(x)
    ensures UniqueBy([x] + s, key)
  {
    forall i, j | 0 <= i < j < |[x] + s| ensures key(([x] + s)[i]) != key(([x] + s)[j]) {
      if i == 0 {
        assert ([x] + s)[j] == s[j - 1];
      } else {
        assert ([x] + s)[i] == s[i - 1] && ([x] + s)[j] == s[j - 1];
      }
    }
  }

  /** Appending a record whose key is new keeps a unique index unique. */
  lemma AppendKeepsUniqueBy<T, K>(s: seq<T>, x: T, key: T -> K)
    requires UniqueBy(s, key)
    requires forall j :: 0 <= j < |s| ==> key(s[j]) != key(x)
    ensures UniqueBy(s + [x], key)
  {
    forall i, j | 0 <= i < j < |s + [x]| ensures key((s + [x])[i]) != key((s + [x])[j]) {
      assert (s + [x])[i] == s[i];
    }
  }

  /** Overwriting one record with one whose key no other record has keeps a unique
      index unique. */
  lemma UpdateKeepsUniqueBy<T, K>(s: seq<T>, i: nat, x: T, key: T -> K)
    requires i < |s| && UniqueBy(s, key)
    requires forall j :: 0 <= j < |s| && j != i ==> key(s[j]) != key(x)
    ensures UniqueBy(s[i := x], key)
  {
  }

  /** Under a unique index, a search by key finds the one record with that key. */
  lemma FindUnique<T, K>(s: seq<T>, key: T -> K, k: K, p: T -> bool, x: T)
    requires UniqueBy(s, key)
    requires forall j :: 0 <= j < |s| ==> (p(s[j]) <==> key(s[j]) == k)
    requires x in s && key(x) == k
    ensures Find(s, p) == Some(x)
  {
    var i := IndexWhere(s, p).value;
    var j :| 0 <= j < |s| && s[j] == x;
    assert p(s[j]);
  }

  /** Filtering twice with the same test is filtering once. */
  lemma {:induction false} FilterIdempotent<T>(s: seq<T>, keep: T -> bool)
    ensures Filter(Filter(s, keep), keep) == Filter(s, keep)
  {
    if s != [] {
      FilterIdempotent(s[1..], keep);
      if keep(s[0]) {
        var rest := Filter(s[1..], keep);
        assert ([s[0]] + rest)[1..] == rest;
      }
    }
  }

  /** Filtering with a test every record passes changes nothing. */
  lemma {:induction false} FilterKeepsAll<T>(s: seq<T>, keep: T -> bool)
    requires forall i :: 0 <= i < |s| ==> keep(s[i])
    ensures Filter(s, keep) == s
  {
    if s != [] {
      FilterKeepsAll(s[1..], keep);
      assert [s[0]] + s[1..] == s;
    }
  }
}
