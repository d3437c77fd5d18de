/** Stable insertion sort under a total preorder, the model of SQL `ORDER BY`
    (equal keys keep their insertion order). */
module Sorting {

  ghost predicate Total<T(!new)>(le: (T, T) -> bool) {
    forall a, b :: le(a, b) || le(b, a)
  }

  ghost predicate Transitive<T(!new)>(le: (T, T) -> bool) {
    forall a, b, c :: le(a, b) && le(b, c) ==> le(a, c)
  }

  ghost predicate TotalPreorder<T(!new)>(le: (T, T) -> bool) {
    Total(le) && Transitive(le)
  }

  ghost predicate SortedBy<T>(le: (T, T) -> bool, s: seq<T>) {
    forall i, j :: 0 <= i < j < |s| ==> le(s[i], s[j])
  }

  /** Inserts `x` before the first element it is ordered before. */
  function Insert<T>(le: (T, T) -> bool, x: T, s: seq<T>): (r: seq<T>)
    ensures multiset(r) == multiset(s) + multiset{x}
    ensures |r| == |s| + 1
  {
    if |s| == 0 || le(x, s[0]) then [x] + s
    else
      assert s == [s[0]] + s[1..];
      [s[0]] + Insert(le, x, s[1..])
  }

  lemma {:induction false} InsertSorted<T(!new)>(le: (T, T) -> bool, x: T, s: seq<T>)
    requires TotalPreorder(le) && SortedBy(le, s)
    ensures SortedBy(le, Insert(le, x, s))
  {
    if |s| == 0 || le(x, s[0]) {
      forall y | y in s ensures le(x, y) {
        var j :| 0 <= j < |s| && s[j] == y;
        if j > 0 {
          TransitiveStep(le, x, s[0], s[j]);
        }
      }
      SortedCons(le, x, s);
    } else {
      var tail := Insert(le, x, s[1..]);
      SortedTail(le, s);
      InsertSorted(le, x, s[1..]);
      forall y | y in tail ensures le(s[0], y) {
        HeadBeforeInserted(le, x, s, y);
      }
      SortedCons(le, s[0], tail);
    }
  }

  /** Every element of the insertion into the tail is ordered after the head
      that `x` was not ordered before. */
  lemma HeadBeforeInserted<T(!new)>(le: (T, T) -> bool, x: T, s: seq<T>, y: T)
    requires TotalPreorder(le) && SortedBy(le, s) && |s| > 0 && !le(x, s[0])
    requires y in Insert(le, x, s[1..])
    ensures le(s[0], y)
  {
    assert y in multiset(Insert(le, x, s[1..]));
    if y != x {
      assert y in multiset(s[1..]);
      var k :| 0 <= k < |s[1..]| && s[1..][k] == y;
      assert s[k + 1] == y;
    } else {
      TotalStep(le, x, s[0]);
    }
  }

  lemma SortedTail<T>(le: (T, T) -> bool, s: seq<T>)
    requires |s| > 0 && SortedBy(le, s)
    ensures SortedBy(le, s[1..])
  {
    var tail := s[1..];
    forall i, j | 0 <= i < j < |tail| ensures le(tail[i], tail[j]) {
      assert tail[i] == s[i + 1] && tail[j] == s[j + 1];
    }
  }

  lemma SortedCons<T>(le: (T, T) -> bool, x: T, rest: seq<T>)
    requires SortedBy(le, rest)
    requires forall y :: y in rest ==> le(x, y)
    ensures SortedBy(le, [x] + rest)
  {
    var r := [x] + rest;
    forall i, j | 0 <= i < j < |r| ensures le(r[i], r[j]) {
      assert r[j] == rest[j - 1];
      if i > 0 {
        assert r[i] == rest[i - 1];
      }
    }
  }

  lemma TransitiveStep<T(!new)>(le: (T, T) -> bool, a: T, b: T, c: T)
    requires Transitive(le) && le(a, b) && le(b, c)
    ensures le(a, c)
  {
  }

  lemma TotalStep<T(!new)>(le: (T, T) -> bool, a: T, b: T)
    requires Total(le) && !le(a, b)
    ensures le(b, a)
  {
  }

  /** `s` sorted by `le`: a permutation of `s` in ascending order. */
  function SortBy<T(!new)>(le: (T, T) -> bool, s: seq<T>): (r: seq<T>)
    requires TotalPreorder(le)
    ensures SortedBy(le, r)
    ensures multiset(r) == multiset(s)
    ensures |r| == |s|
  {
    if |s| == 0 then []
    else
      assert s == [s[0]] + s[1..];
      var tail := SortBy(le, s[1..]);
      InsertSorted(le, s[0], tail);
      Insert(le, s[0], tail)
  }

  /** In a sorted sequence every element of a prefix is ordered before every
      element that remains after it, and the prefix is itself sorted. */
  lemma SortedPrefix<T>(le: (T, T) -> bool, s: seq<T>, k: nat)
    requires SortedBy(le, s) && k <= |s|
    ensures SortedBy(le, s[..k])
    ensures multiset(s) == multiset(s[..k]) + multiset(s[k..])
    ensures multiset(s[..k]) <= multiset(s)
    ensures multiset(s) - multiset(s[..k]) == multiset(s[k..])
    ensures forall y :: y in multiset(s[k..]) ==> forall i :: 0 <= i < k ==> le(s[i], y)
  {
    PrefixSuffixMultiset(s, k);
    assert SortedBy(le, s[..k]) by {
      forall i, j | 0 <= i < j < k ensures le(s[..k][i], s[..k][j]) {
        assert s[..k][i] == s[i] && s[..k][j] == s[j];
      }
    }
    forall y | y in multiset(s[k..]) ensures forall i :: 0 <= i < k ==> le(s[i], y) {
      assert y in s[k..];
      var j :| 0 <= j < |s[k..]| && s[k..][j] == y;
      assert s[k + j] == y;
      forall i | 0 <= i < k ensures le(s[i], y) {
        assert i < k + j;
      }
    }
  }

  /** A prefix and the matching suffix split the multiset of `s`. */
  lemma PrefixSuffixMultiset<T>(s: seq<T>, k: nat)
    requires k <= |s|
    ensures multiset(s) == multiset(s[..k]) + multiset(s[k..])
    ensures multiset(s[..k]) <= multiset(s)
    ensures multiset(s) - multiset(s[..k]) == multiset(s[k..])
  {
    assert s == s[..k] + s[k..];
  }
}
