/** Order-preserving filtering and counting over sequences. */
module Seqs {

  /** The elements of `s` satisfying `p`, in their original order
      (a list comprehension `[x for x in s if p(x)]`, or a SQL `WHERE`). */
  function Filter<T>(p: T -> bool, s: seq<T>): (r: seq<T>)
    ensures |r| <= |s|
    ensures forall i :: 0 <= i < |r| ==> r[i] in s && p(r[i])
    ensures forall i :: 0 <= i < |s| && p(s[i]) ==> s[i] in r
    ensures multiset(r) <= multiset(s)
  {
    if |s| == 0 then []
    else
      assert s == [s[0]] + s[1..];
      if p(s[0]) then [s[0]] + Filter(p, s[1..]) else Filter(p, s[1..])
  }

  /** Every pair of elements, in sequence order, is related by `rel`. */
  ghost predicate Pairwise<T>(rel: (T, T) -> bool, s: seq<T>) {
    forall i, j :: 0 <= i < j < |s| ==> rel(s[i], s[j])
  }

  /** Number of elements of `s` satisfying `p` (SQL `COUNT(*) ... WHERE`). */
  function Count<T>(p: T -> bool, s: seq<T>): (n: nat)
    ensures n <= |s|
    ensures n == 0 <==> forall i :: 0 <= i < |s| ==> !p(s[i])
    ensures n == |s| <==> forall i :: 0 <= i < |s| ==> p(s[i])
  {
    if |s| == 0 then 0
    else (if p(s[0]) then 1 else 0) + Count(p, s[1..])
  }

  /** Filtering keeps exactly as many elements as satisfy the predicate. */
  lemma {:induction false} FilterLength<T>(p: T -> bool, s: seq<T>)
    ensures |Filter(p, s)| == Count(p, s)
  {
    if |s| > 0 {
      FilterLength(p, s[1..]);
    }
  }

  /** The elements satisfying `p` and those failing it partition `s`. */
  lemma {:induction false} CountComplement<T>(p: T -> bool, q: T -> bool, s: seq<T>)
    requires forall i :: 0 <= i < |s| ==> (q(s[i]) <==> !p(s[i]))
    ensures Count(p, s) + Count(q, s) == |s|
  {
    if |s| > 0 {
      CountComplement(p, q, s[1..]);
    }
  }

  /** Filtering keeps a pairwise relation that held of the whole sequence. */
  lemma {:induction false} FilterPairwise<T>(p: T -> bool, rel: (T, T) -> bool, s: seq<T>)
    requires Pairwise(rel, s)
    ensures Pairwise(rel, Filter(p, s))
  {
    if |s| > 0 {
      var tail := s[1..];
      PairwiseTail(rel, s);
      FilterPairwise(p, rel, tail);
      if p(s[0]) {
        var rest := Filter(p, tail);
        forall y | y in rest ensures rel(s[0], y) {
          HeadRelatesTail(rel, s, y);
        }
        PairwiseCons(rel, s[0], rest);
      }
    }
  }

  lemma PairwiseTail<T>(rel: (T, T) -> bool, s: seq<T>)
    requires |s| > 0 && Pairwise(rel, s)
    ensures Pairwise(rel, s[1..])
  {
    var tail := s[1..];
    forall i, j | 0 <= i < j < |tail| ensures rel(tail[i], tail[j]) {
      assert tail[i] == s[i + 1] && tail[j] == s[j + 1];
    }
  }

  lemma PairwiseCons<T>(rel: (T, T) -> bool, x: T, rest: seq<T>)
    requires Pairwise(rel, rest)
    requires forall y :: y in rest ==> rel(x, y)
    ensures Pairwise(rel, [x] + rest)
  {
    var r := [x] + rest;
    forall i, j | 0 <= i < j < |r| ensures rel(r[i], r[j]) {
      assert r[j] == rest[j - 1];
      if i > 0 {
        assert r[i] == rest[i - 1];
      }
    }
  }

  lemma HeadRelatesTail<T>(rel: (T, T) -> bool, s: seq<T>, y: T)
    requires |s| > 0 && Pairwise(rel, s) && y in s[1..]
    ensures rel(s[0], y)
  {
    var k :| 0 <= k < |s[1..]| && s[1..][k] == y;
    assert s[k + 1] == y;
  }

  /** Appending an element related to every earlier one keeps a pairwise relation. */
  lemma PairwiseAppend<T>(rel: (T, T) -> bool, s: seq<T>, x: T)
    requires Pairwise(rel, s)
    requires forall i :: 0 <= i < |s| ==> rel(s[i], x)
    ensures Pairwise(rel, s + [x])
  {
    var r := s + [x];
    forall i, j | 0 <= i < j < |r| ensures rel(r[i], r[j]) {
      assert r[i] == s[i];
      if j < |s| {
        assert r[j] == s[j];
      }
    }
  }

  /** Filtering with a predicate every element satisfies changes nothing. */
  lemma {:induction false} FilterAll<T>(p: T -> bool, s: seq<T>)
    requires forall i :: 0 <= i < |s| ==> p(s[i])
    ensures Filter(p, s) == s
  {
    if |s| > 0 {
      FilterAll(p, s[1..]);
      assert s == [s[0]] + s[1..];
    }
  }

  /** An element survives filtering exactly when it is in `s` and satisfies `p`. */
  lemma {:induction false} FilterMembers<T>(p: T -> bool, s: seq<T>)
    ensures forall x :: x in Filter(p, s) <==> x in s && p(x)
  {
    if |s| > 0 {
      FilterMembers(p, s[1..]);
      assert s == [s[0]] + s[1..];
    }
  }

  /** Filtering with a predicate no element satisfies leaves nothing. */
  lemma {:induction false} FilterNone<T>(p: T -> bool, s: seq<T>)
    requires forall i :: 0 <= i < |s| ==> !p(s[i])
    ensures Filter(p, s) == []
  {
    if |s| > 0 {
      FilterNone(p, s[1..]);
    }
  }

  /** Filtering distributes over appending one element. */
  lemma {:induction false} FilterAppend<T>(p: T -> bool, s: seq<T>, x: T)
    ensures Filter(p, s + [x]) == Filter(p, s) + (if p(x) then [x] else [])
  {
    if |s| == 0 {
      assert s + [x] == [x];
    } else {
      assert (s + [x])[1..] == s[1..] + [x];
      FilterAppend(p, s[1..], x);
    }
  }

  /** Filtering first with a weaker predicate changes nothing. */
  lemma {:induction false} FilterFilter<T>(p: T -> bool, q: T -> bool, s: seq<T>)
    requires forall i :: 0 <= i < |s| && p(s[i]) ==> q(s[i])
    ensures Filter(p, Filter(q, s)) == Filter(p, s)
  {
    if |s| > 0 {
      FilterFilter(p, q, s[1..]);
      if q(s[0]) {
        assert Filter(q, s) == [s[0]] + Filter(q, s[1..]);
        assert Filter(q, s)[1..] == Filter(q, s[1..]);
      }
    }
  }

  /** The positions of `s` whose element satisfies `p`, in increasing order. */
  function Positions<T>(p: T -> bool, s: seq<T>): (idx: seq<int>)
  {
    if |s| == 0 then []
    else (if p(s[0]) then [0] else []) + Shift(Positions(p, s[1..]))
  }

  function Shift(xs: seq<int>): (r: seq<int>)
    ensures |r| == |xs| && forall k :: 0 <= k < |xs| ==> r[k] == xs[k] + 1
  {
    seq(|xs|, k requires 0 <= k < |xs| => xs[k] + 1)
  }

  /** Filtering picks out exactly the positions of `s` whose element satisfies
      `p`, in increasing order: `idx[k]` is where the k-th survivor stood. */
  lemma FilterPositions<T>(p: T -> bool, s: seq<T>) returns (idx: seq<int>)
    ensures |idx| == |Filter(p, s)|
    ensures forall k :: 0 <= k < |idx| ==> 0 <= idx[k] < |s| && Filter(p, s)[k] == s[idx[k]]
    ensures forall k, l :: 0 <= k < l < |idx| ==> idx[k] < idx[l]
    ensures forall j :: 0 <= j < |s| && p(s[j]) ==> j in idx
  {
    idx := Positions(p, s);
    PositionsPick(p, s);
    PositionsIncreasing(p, s);
    PositionsCover(p, s);
  }

  lemma {:induction false} PositionsPick<T>(p: T -> bool, s: seq<T>)
    ensures |Positions(p, s)| == |Filter(p, s)|
    ensures forall k :: 0 <= k < |Positions(p, s)| ==>
              0 <= Positions(p, s)[k] < |s| && Filter(p, s)[k] == s[Positions(p, s)[k]]
  {
    if |s| > 0 {
      var tail := s[1..];
      PositionsPick(p, tail);
      var rest := Shift(Positions(p, tail));
      var f := Filter(p, tail);
      var head := if p(s[0]) then [0] else [];
      assert Positions(p, s) == head + rest;
      assert Filter(p, s) == (if p(s[0]) then [s[0]] else []) + f;
      forall k | 0 <= k < |rest| ensures 1 <= rest[k] < |s| && f[k] == s[rest[k]] {
        assert tail[Positions(p, tail)[k]] == s[rest[k]];
      }
    }
  }

  lemma {:induction false} PositionsIncreasing<T>(p: T -> bool, s: seq<T>)
    ensures forall k :: 0 <= k < |Positions(p, s)| ==> 0 <= Positions(p, s)[k]
    ensures forall k, l :: 0 <= k < l < |Positions(p, s)| ==> Positions(p, s)[k] < Positions(p, s)[l]
  {
    if |s| > 0 {
      PositionsIncreasing(p, s[1..]);
      var rest := Shift(Positions(p, s[1..]));
      var head := if p(s[0]) then [0] else [];
      assert Positions(p, s) == head + rest;
    }
  }

  lemma {:induction false} PositionsCover<T>(p: T -> bool, s: seq<T>)
    ensures forall j :: 0 <= j < |s| && p(s[j]) ==> j in Positions(p, s)
  {
    if |s| > 0 {
      var tail := s[1..];
      PositionsCover(p, tail);
      var inner := Positions(p, tail);
      var rest := Shift(inner);
      var head := if p(s[0]) then [0] else [];
      assert Positions(p, s) == head + rest;
      forall j | 1 <= j < |s| && p(s[j]) ensures j in rest {
        assert tail[j - 1] == s[j];
        var k :| 0 <= k < |inner| && inner[k] == j - 1;
        assert rest[k] == j;
      }
    }
  }

  /** No element occurs twice. */
  ghost predicate Distinct<T>(s: seq<T>) {
    forall i, j :: 0 <= i < j < |s| ==> s[i] != s[j]
  }

  lemma {:induction false} DistinctOnce<T>(s: seq<T>, x: T)
    requires Distinct(s)
    ensures multiset(s)[x] <= 1
  {
    if |s| > 0 {
      var tail := s[1..];
      assert Distinct(tail) by {
        forall i, j | 0 <= i < j < |tail| ensures tail[i] != tail[j] {
          assert tail[i] == s[i + 1] && tail[j] == s[j + 1];
        }
      }
      DistinctOnce(tail, x);
      assert s == [s[0]] + tail;
      assert s[0] !in tail;
    }
  }

  lemma RepeatTwice<T>(s: seq<T>, i: int, j: int)
    requires 0 <= i < j < |s| && s[i] == s[j]
    ensures multiset(s)[s[i]] >= 2
  {
    assert s == s[..j] + s[j..];
    assert s[i] in s[..j] && s[j] in s[j..];
  }

  /** A rearrangement of a sequence without repeats has none either. */
  lemma DistinctPermutation<T>(a: seq<T>, b: seq<T>)
    requires multiset(a) == multiset(b) && Distinct(a)
    ensures Distinct(b)
  {
    forall i, j | 0 <= i < j < |b| ensures b[i] != b[j] {
      if b[i] == b[j] {
        RepeatTwice(b, i, j);
        DistinctOnce(a, b[i]);
      }
    }
  }

  /** Extending `a` to `b` and then `b` to `c` extends `a` to `c` by both
      additions, in order. */
  lemma PrefixChain<T>(a: seq<T>, b: seq<T>, c: seq<T>)
    requires |a| <= |b| <= |c| && b[..|a|] == a && c[..|b|] == b
    ensures c[..|a|] == a
    ensures c[|a|..] == b[|a|..] + c[|b|..]
  {
    assert c[..|a|] == c[..|b|][..|a|];
  }

  /** SQLite's `LIMIT n`: at most `n` leading elements; a negative `n` means
      no limit. */
  function Limit<T>(s: seq<T>, n: int): (r: seq<T>)
    ensures n < 0 || |s| <= n ==> r == s
    ensures 0 <= n <= |s| ==> r == s[..n]
  {
    if n < 0 || |s| <= n then s else s[..n]
  }

  /** The image of a permutation of `s` under `f` holds the image of every
      element of `s`, and nothing else. */
  lemma PermutedImage<T, U>(f: T -> U, perm: seq<T>, s: seq<T>, r: seq<U>)
    requires multiset(perm) == multiset(s)
    requires |r| == |perm| && forall i :: 0 <= i < |perm| ==> r[i] == f(perm[i])
    ensures |r| == |s|
    ensures forall k :: 0 <= k < |s| ==> f(s[k]) in r
    ensures forall i :: 0 <= i < |r| ==> exists k :: 0 <= k < |s| && r[i] == f(s[k])
  {
    assert |multiset(perm)| == |multiset(s)|;
    forall k | 0 <= k < |s| ensures f(s[k]) in r {
      assert s[k] in multiset(perm);
      var i :| 0 <= i < |perm| && perm[i] == s[k];
      assert r[i] == f(s[k]);
    }
    forall i | 0 <= i < |r| ensures exists k :: 0 <= k < |s| && r[i] == f(s[k]) {
      assert perm[i] in multiset(s);
      var k :| 0 <= k < |s| && s[k] == perm[i];
    }
  }
}
